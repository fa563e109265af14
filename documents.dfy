/** Shared vocabulary: the LangChain document the loader, the store manager and
    the chat agent pass around, the values its metadata dictionary holds, and the
    way Python renders those values inside an f-string. */
module Documents {

  datatype Option<+T> = None | Some(value: T) {
    function GetOr(default: T): T {
      match this
      case Some(v) => v
      case None => default
    }
  }

  /** A metadata value: the loaders only ever store text (file names, ids) and
      integers (pages, chunk ordinals). */
  datatype MetaValue = MStr(s: string) | MInt(i: int)

  type Metadata = map<string, MetaValue>

  /** `dict.get(key, default)` */
  function Get<K(==), V>(m: map<K, V>, key: K, default: V): V {
    if key in m then m[key] else default
  }

  /** A LangChain `Document`: the text is never changed by the core, the
      metadata dictionary is updated in place. */
  class Document {
    const pageContent: string
    var metadata: Metadata

    constructor (pageContent: string, metadata: Metadata)
      ensures this.pageContent == pageContent && this.metadata == metadata
    {
      this.pageContent := pageContent;
      this.metadata := metadata;
    }
  }

  /** The page texts of a list of documents, in order. */
  function Texts(docs: seq<Document>): (ts: seq<string>)
    ensures |ts| == |docs|
    ensures forall i :: 0 <= i < |docs| ==> ts[i] == docs[i].pageContent
  {
    seq(|docs|, i requires 0 <= i < |docs| => docs[i].pageContent)
  }

  /** The metadata of every entry of `chunks`, read from the heap. */
  function Current(chunks: seq<Document>): (cur: seq<Metadata>)
    reads chunks
    ensures |cur| == |chunks| && forall j :: 0 <= j < |chunks| ==> cur[j] == chunks[j].metadata
  {
    seq(|chunks|, j requires 0 <= j < |chunks| reads chunks => chunks[j].metadata)
  }

  /** `orig` is what one heap gave for `chunks`: one object, one metadata. */
  ghost predicate Coherent(chunks: seq<Document>, orig: seq<Metadata>) {
    && |orig| == |chunks|
    && (forall j, j' :: 0 <= j < |chunks| && 0 <= j' < |chunks| && chunks[j] == chunks[j'] ==> orig[j] == orig[j'])
  }

  predicate IsDigit(c: char) {
    '0' <= c <= '9'
  }

  function DigitChar(d: nat): (c: char)
    requires d < 10
    ensures IsDigit(c) && (c == '0' <==> d == 0)
  {
    "0123456789"[d]
  }

  /** `str(n)` for a non-negative integer: its decimal digits. */
  function NatToString(n: nat): string {
    if n < 10 then [DigitChar(n)] else NatToString(n / 10) + [DigitChar(n % 10)]
  }

  /** `str(n)` is a non-empty run of digits with no leading zero. */
  lemma {:induction false} NatToStringDigits(n: nat)
    ensures var s := NatToString(n);
            && |s| > 0 && (forall i :: 0 <= i < |s| ==> IsDigit(s[i]))
            && (s[0] == '0' <==> n == 0)
  {
    if n >= 10 {
      NatToStringDigits(n / 10);
    }
  }

  /** `str(i)` for any integer: a minus sign in front of the magnitude. */
  function IntToString(i: int): string {
    if i < 0 then "-" + NatToString(-i) else NatToString(i)
  }

  /** A number renders as a single digit exactly when it is below ten. */
  lemma NatToStringSingleDigit(n: nat)
    ensures |NatToString(n)| == 1 <==> n < 10
  {
    if n >= 10 {
      NatToStringDigits(n / 10);
    }
  }

  /** Different numbers render differently. */
  lemma {:induction false} NatToStringInjective(a: nat, b: nat)
    requires NatToString(a) == NatToString(b)
    ensures a == b
  {
    NatToStringSingleDigit(a);
    NatToStringSingleDigit(b);
    if a >= 10 {
      var sa, sb := NatToString(a), NatToString(b);
      assert sa[..|sa| - 1] == NatToString(a / 10) && sb[..|sb| - 1] == NatToString(b / 10);
      NatToStringInjective(a / 10, b / 10);
    }
  }

  /** How `f"{v}"` renders a metadata value. */
  function Render(v: MetaValue): string {
    match v
    case MStr(s) => s
    case MInt(i) => IntToString(i)
  }
}
