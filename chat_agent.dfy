/** The part of the chat agent that turns the documents the retriever returned
    into the source records shown beside an answer (`ChatAgent._extract_sources`). */
module ChatAgent {
  import opened Documents
  import DocumentLoader

  // ---------------------------------------------------------------------
  // `str.strip()`

  /** `c.isspace()`: the characters Python treats as whitespace (Unicode
      category Zs or bidirectional class WS, B or S). */
  predicate IsSpace(c: char) {
    || '\t' <= c <= '\r'
    || '\U{1C}' <= c <= ' '
    || c == '\U{85}' || c == '\U{A0}' || c == '\U{1680}'
    || '\U{2000}' <= c <= '\U{200A}'
    || c == '\U{2028}' || c == '\U{2029}' || c == '\U{202F}' || c == '\U{205F}' || c == '\U{3000}'
  }

  predicate AllSpace(s: string) {
    forall i :: 0 <= i < |s| ==> IsSpace(s[i])
  }

  /** `s.lstrip()` */
  function TrimLeft(s: string): string {
    if s != [] && IsSpace(s[0]) then TrimLeft(s[1..]) else s
  }

  /** `s.rstrip()` */
  function TrimRight(s: string): string {
    if s != [] && IsSpace(s[|s| - 1]) then TrimRight(s[..|s| - 1]) else s
  }

  /** `s.strip()` */
  function Strip(s: string): string {
    TrimRight(TrimLeft(s))
  }

  /** Left-trimming drops a prefix of whitespace and stops at a non-space. */
  lemma {:induction false} TrimLeftSpec(s: string)
    ensures var r := TrimLeft(s);
            && |r| <= |s| && r == s[|s| - |r|..] && AllSpace(s[..|s| - |r|])
            && (r == [] || !IsSpace(r[0]))
  {
    if s != [] && IsSpace(s[0]) {
      TrimLeftSpec(s[1..]);
      var r := TrimLeft(s);
      assert s[..|s| - |r|] == [s[0]] + s[1..][..|s| - 1 - |r|];
    }
  }

  /** Right-trimming drops a suffix of whitespace and stops at a non-space. */
  lemma {:induction false} TrimRightSpec(s: string)
    ensures var r := TrimRight(s);
            && |r| <= |s| && r == s[..|r|] && AllSpace(s[|r|..])
            && (r == [] || !IsSpace(r[|r| - 1]))
  {
    if s != [] && IsSpace(s[|s| - 1]) {
      var p := s[..|s| - 1];
      TrimRightSpec(p);
      var r := TrimRight(s);
      assert s[|r|..] == p[|r|..] + [s[|s| - 1]];
    }
  }

  /** `strip` keeps a contiguous slice of its input, removes only whitespace
      around it, and the slice neither starts nor ends with whitespace. */
  lemma StripSpec(s: string)
    ensures var r, a := Strip(s), |s| - |TrimLeft(s)|;
            && 0 <= a && a + |r| <= |s| && r == s[a..a + |r|]
            && AllSpace(s[..a]) && AllSpace(s[a + |r|..])
            && (r == [] || (!IsSpace(r[0]) && !IsSpace(r[|r| - 1])))
  {
    var l := TrimLeft(s);
    TrimLeftSpec(s);
    TrimRightSpec(l);
    var r := Strip(s);
    var a := |s| - |l|;
    assert l == s[a..];
    assert r == l[..|r|];
    assert r == s[a..a + |r|];
    assert s[a + |r|..] == l[|r|..];
    assert r == [] || r[0] == l[0];
  }

  /** Whitespace in front of a text that does not start with whitespace is
      exactly what left-trimming removes. */
  lemma {:induction false} TrimLeftSkips(p: string, rest: string)
    requires AllSpace(p) && (rest == [] || !IsSpace(rest[0]))
    ensures TrimLeft(p + rest) == rest
  {
    if p != [] {
      assert (p + rest)[1..] == p[1..] + rest;
      TrimLeftSkips(p[1..], rest);
    }
  }

  /** Whitespace after a text that does not end with whitespace is exactly
      what right-trimming removes. */
  lemma {:induction false} TrimRightSkips(rest: string, q: string)
    requires AllSpace(q) && (rest == [] || !IsSpace(rest[|rest| - 1]))
    ensures TrimRight(rest + q) == rest
  {
    if q != [] {
      assert (rest + q)[..|rest + q| - 1] == rest + q[..|q| - 1];
      TrimRightSkips(rest, q[..|q| - 1]);
    }
  }

  /** The characterisation is complete: a text framed by whitespace and
      neither starting nor ending with whitespace is what `strip` returns. */
  lemma StripOfFramed(p: string, t: string, q: string)
    requires AllSpace(p) && AllSpace(q)
    requires t == [] || (!IsSpace(t[0]) && !IsSpace(t[|t| - 1]))
    ensures Strip(p + t + q) == t
  {
    if t == [] {
      assert p + t + q == (p + q) + [];
      TrimLeftSkips(p + q, []);
    } else {
      assert p + t + q == p + (t + q);
      TrimLeftSkips(p, t + q);
      TrimRightSkips(t, q);
    }
  }

  /** Stripping twice is stripping once. */
  lemma StripIdempotent(s: string)
    ensures Strip(Strip(s)) == Strip(s)
  {
    var r := Strip(s);
    StripSpec(s);
    assert r == [] + r + [];
    StripOfFramed([], r, []);
  }

  // ---------------------------------------------------------------------
  // Source records

  /** One `{"file", "page", "chunk", "text"}` record: the first three are
      whatever the metadata holds, the text is always a string. */
  datatype SourceRecord = SourceRecord(file: MetaValue, page: MetaValue, chunk: MetaValue, text: string)

  /** `_extract_sources`: one record per document, in order; "file" defaults
      to "unknown", "page" and "chunk" to -1, and the text is the page content
      with surrounding whitespace stripped. */
  method ExtractSources(docs: seq<Document>) returns (extracted: seq<SourceRecord>)
    ensures |extracted| == |docs|
    ensures forall i :: 0 <= i < |docs| ==>
              && extracted[i].file == Get(docs[i].metadata, "file", MStr("unknown"))
              && extracted[i].page == Get(docs[i].metadata, "page", MInt(-1))
              && extracted[i].chunk == Get(docs[i].metadata, "chunk", MInt(-1))
              && extracted[i].text == Strip(docs[i].pageContent)
  {
    extracted := [];
    for i := 0 to |docs|
      invariant |extracted| == i
      invariant forall j :: 0 <= j < i ==>
                  && extracted[j].file == Get(docs[j].metadata, "file", MStr("unknown"))
                  && extracted[j].page == Get(docs[j].metadata, "page", MInt(-1))
                  && extracted[j].chunk == Get(docs[j].metadata, "chunk", MInt(-1))
                  && extracted[j].text == Strip(docs[j].pageContent)
    {
      var meta := docs[i].metadata;
      extracted := extracted + [SourceRecord(
        Get(meta, "file", MStr("unknown")),
        Get(meta, "page", MInt(-1)),
        Get(meta, "chunk", MInt(-1)),
        Strip(docs[i].pageContent))];
    }
  }

  /** A chunk that went through the loader's id assignment is reported with
      the file, page and ordinal the loader gave it, never with a default. */
  lemma RecordOfAssignedChunk(m: Metadata, idx: nat)
    requires DocumentLoader.SourceIsText(m)
    ensures var a := DocumentLoader.Assigned(m, idx);
            && Get(a, "file", MStr("unknown")) == MStr(DocumentLoader.FileOf(m))
            && Get(a, "page", MInt(-1)) == DocumentLoader.PageOf(m)
            && Get(a, "chunk", MInt(-1)) == MInt(idx)
  {
    DocumentLoader.AssignedFields(m, idx);
  }
}
