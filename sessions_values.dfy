/** The value-level vocabulary of the session snapshots: recorded turns and the
    chat memory rebuilt from them, the alias table (a Python dict, so ordered
    by first insertion), file names and paths, and the newest-first ordering
    of the session list. */
module SessionValues {
  import opened Documents
  import ChatAgent

  // ---------------------------------------------------------------------
  // History and memory

  /** One `{"question", "answer", "sources"}` entry of a session history. */
  datatype Turn = Turn(question: string, answer: string, sources: seq<ChatAgent.SourceRecord>)

  /** A message of the rebuilt conversation memory. */
  datatype Message = Human(content: string) | Ai(content: string)

  /** The memory `resume_session` rebuilds: a user message then an AI message
      for every turn, in history order. */
  function Replay(history: seq<Turn>): seq<Message> {
    if history == [] then []
    else
      var last := history[|history| - 1];
      Replay(history[..|history| - 1]) + [Human(last.question), Ai(last.answer)]
  }

  /** Message `2i` is the i-th question and message `2i+1` the i-th answer. */
  lemma {:induction false} ReplayAt(history: seq<Turn>)
    ensures |Replay(history)| == 2 * |history|
    ensures forall i :: 0 <= i < |history| ==>
              Replay(history)[2 * i] == Human(history[i].question) && Replay(history)[2 * i + 1] == Ai(history[i].answer)
  {
    if history != [] {
      ReplayAt(history[..|history| - 1]);
    }
  }

  /** Recording a turn extends the memory a later resume rebuilds by exactly
      that question and answer. */
  lemma ReplaySnoc(history: seq<Turn>, t: Turn)
    ensures Replay(history + [t]) == Replay(history) + [Human(t.question), Ai(t.answer)]
  {
    assert (history + [t])[..|history|] == history;
  }

  // ---------------------------------------------------------------------
  // The alias table

  /** The alias dictionary: its keys in insertion order, and the mapping. */
  datatype AliasTable = AliasTable(order: seq<string>, entries: map<string, string>) {

    /** Every key occurs once in `order`, and `order` lists exactly the keys. */
    ghost predicate Valid() {
      && (forall k :: k in entries <==> k in order)
      && (forall i, j :: 0 <= i < j < |order| ==> order[i] != order[j])
    }

    /** `aliases[key] = value`: a new key goes last, an existing key keeps
        its place. */
    function Put(key: string, value: string): AliasTable {
      AliasTable(if key in entries then order else order + [key], entries[key := value])
    }

    /** `aliases.get(identifier, identifier)` */
    function Resolve(identifier: string): string {
      Get(entries, identifier, identifier)
    }

    /** Whether `key` is a custom alias of `sid`. */
    predicate Names(key: string, sid: string) {
      key != sid && key in entries && entries[key] == sid
    }

    /** `_get_alias_for_id`: the first key, in dict order, that is a custom
        alias of `sid`, or `sid` itself when there is none. */
    function AliasFor(sid: string): string {
      FirstNaming(order, sid)
    }

    function FirstNaming(keys: seq<string>, sid: string): string {
      if keys == [] then sid
      else if Names(keys[0], sid) then keys[0]
      else FirstNaming(keys[1..], sid)
    }
  }

  /** Putting a key keeps the table well formed and changes that key only. */
  lemma PutSpec(t: AliasTable, key: string, value: string)
    requires t.Valid()
    ensures t.Put(key, value).Valid()
    ensures forall k :: t.Put(key, value).Resolve(k) == if k == key then value else t.Resolve(k)
  {
  }

  /** The first-match search over a run of keys: the result is either a
      custom alias of `sid` preceded by none, or `sid` when no key is one. */
  lemma {:induction false} FirstNamingSpec(t: AliasTable, keys: seq<string>, sid: string)
    ensures var a := t.FirstNaming(keys, sid);
            && (a == sid <==> forall i :: 0 <= i < |keys| ==> !t.Names(keys[i], sid))
            && (a != sid ==> exists i :: 0 <= i < |keys| && keys[i] == a && t.Names(a, sid)
                                         && forall j :: 0 <= j < i ==> !t.Names(keys[j], sid))
  {
    if keys != [] && !t.Names(keys[0], sid) {
      var a := t.FirstNaming(keys, sid);
      FirstNamingSpec(t, keys[1..], sid);
      if a != sid {
        var i :| 0 <= i < |keys| - 1 && keys[1..][i] == a && t.Names(a, sid)
                 && forall j :: 0 <= j < i ==> !t.Names(keys[1..][j], sid);
        assert keys[i + 1] == a;
        assert forall j :: 0 <= j < i + 1 ==> !t.Names(keys[j], sid) by {
          forall j | 0 <= j < i + 1
            ensures !t.Names(keys[j], sid)
          {
            if j > 0 {
              assert keys[j] == keys[1..][j - 1];
            }
          }
        }
      } else {
        forall i | 0 <= i < |keys|
          ensures !t.Names(keys[i], sid)
        {
          if i > 0 {
            assert keys[i] == keys[1..][i - 1];
          }
        }
      }
    }
  }

  /** `_get_alias_for_id` returns the first custom alias of `sid` in dict
      order, or `sid` itself exactly when no key other than `sid` maps to it. */
  lemma AliasForSpec(t: AliasTable, sid: string)
    requires t.Valid()
    ensures var a := t.AliasFor(sid);
            && (a == sid <==> forall k :: k in t.entries ==> !t.Names(k, sid))
            && (a != sid ==> exists i :: 0 <= i < |t.order| && t.order[i] == a && t.Names(a, sid)
                                         && forall j :: 0 <= j < i ==> !t.Names(t.order[j], sid))
  {
    FirstNamingSpec(t, t.order, sid);
    if t.AliasFor(sid) == sid {
      forall k | k in t.entries
        ensures !t.Names(k, sid)
      {
        var i :| 0 <= i < |t.order| && t.order[i] == k;
      }
    }
  }

  /** The alias shown for a session resolves back to that session, provided
      the session's own key (if any) maps to itself, as `start_new_session`
      leaves it. */
  lemma AliasResolvesBack(t: AliasTable, sid: string)
    requires t.Valid()
    requires sid in t.entries ==> t.entries[sid] == sid
    ensures t.Resolve(t.AliasFor(sid)) == sid
  {
    AliasForSpec(t, sid);
  }

  /** The alias table `start_new_session` leaves: the new id maps to itself,
      and a non-empty alias, when given, maps to the new id. */
  function Registered(t: AliasTable, freshId: string, alias: Option<string>): AliasTable {
    var t1 := t.Put(freshId, freshId);
    if alias.Some? && alias.value != "" then t1.Put(alias.value, freshId) else t1
  }

  /** For an id no entry mentions yet, registration makes the id and its
      alias resolve to it, shows the alias in the session list, and leaves
      every other entry alone. */
  lemma RegisteredSpec(t: AliasTable, freshId: string, alias: Option<string>)
    requires t.Valid()
    requires freshId !in t.entries && forall k :: k in t.entries ==> t.entries[k] != freshId
    ensures var t' := Registered(t, freshId, alias);
            var named := alias.Some? && alias.value != "";
            && t'.Valid()
            && t'.Resolve(freshId) == freshId
            && (named ==> t'.Resolve(alias.value) == freshId)
            && (forall k :: k != freshId && !(named && k == alias.value) ==> t'.Resolve(k) == t.Resolve(k))
            && t'.AliasFor(freshId) == if named && alias.value != freshId then alias.value else freshId
  {
    var t1 := t.Put(freshId, freshId);
    PutSpec(t, freshId, freshId);
    var t' := Registered(t, freshId, alias);
    if alias.Some? && alias.value != "" {
      PutSpec(t1, alias.value, freshId);
    }
    AliasForSpec(t', freshId);
    if alias.Some? && alias.value != "" && alias.value != freshId {
      assert t'.Names(alias.value, freshId);
    } else {
      forall k | k in t'.entries
        ensures !t'.Names(k, freshId)
      {
      }
    }
  }

  // ---------------------------------------------------------------------
  // File names and paths

  /** `os.path.join(a, b)` on POSIX: an absolute `b` replaces `a`, otherwise a
      separator is inserted unless `a` is empty or already ends with one. */
  function Join(a: string, b: string): (p: string) {
    if |b| > 0 && b[0] == '/' then b
    else if a == [] || a[|a| - 1] == '/' then a + b
    else a + "/" + b
  }

  /** Joining one directory with different relative names gives different
      paths, so distinct session ids never share a snapshot file. */
  lemma JoinInjective(a: string, b1: string, b2: string)
    requires b1 == [] || b1[0] != '/'
    requires b2 == [] || b2[0] != '/'
    ensures Join(a, b1) == Join(a, b2) ==> b1 == b2
  {
    var prefix := if a == [] || a[|a| - 1] == '/' then a else a + "/";
    assert Join(a, b1) == prefix + b1 && Join(a, b2) == prefix + b2;
    if Join(a, b1) == Join(a, b2) {
      assert b1 == (prefix + b1)[|prefix|..] && b2 == (prefix + b2)[|prefix|..];
    }
  }

  predicate EndsWith(s: string, suffix: string) {
    |suffix| <= |s| && s[|s| - |suffix|..] == suffix
  }

  predicate HasJsonAt(s: string, i: int) {
    0 <= i && i + 5 <= |s| && s[i..i + 5] == ".json"
  }

  /** `s.replace(".json", "")`: every occurrence is removed, scanning from
      the left. */
  function RemoveJson(s: string): string {
    if |s| >= 5 && s[..5] == ".json" then RemoveJson(s[5..])
    else if s == [] then []
    else [s[0]] + RemoveJson(s[1..])
  }

  /** A text without any occurrence of ".json" is kept as it is. */
  lemma {:induction false} RemoveJsonKeepsPlain(s: string)
    requires forall i :: !HasJsonAt(s, i)
    ensures RemoveJson(s) == s
  {
    if s != [] {
      assert !HasJsonAt(s, 0);
      forall i
        ensures !HasJsonAt(s[1..], i)
      {
        assert !HasJsonAt(s, i + 1);
        if 0 <= i && i + 5 <= |s| - 1 {
          assert s[1..][i..i + 5] == s[i + 1..i + 6];
        }
      }
      RemoveJsonKeepsPlain(s[1..]);
    }
  }

  /** The session id `list_sessions` reads off a snapshot file name is the id
      the file was saved under, for every id that does not itself contain
      ".json": the suffix cannot overlap the id, since no proper prefix of
      ".json" is also a suffix of it. */
  lemma {:induction false} RemoveJsonOfSnapshotName(sid: string)
    requires forall i :: !HasJsonAt(sid, i)
    ensures RemoveJson(sid + ".json") == sid
  {
    var s := sid + ".json";
    if sid == [] {
      assert s[..5] == ".json" && s[5..] == [];
    } else {
      assert s[..5] != ".json" by {
        if |sid| >= 5 {
          assert !HasJsonAt(sid, 0);
          assert s[..5] == sid[0..5];
        } else {
          assert s[|sid|] == '.' != ".json"[|sid|];
        }
      }
      assert s[1..] == sid[1..] + ".json";
      forall i
        ensures !HasJsonAt(sid[1..], i)
      {
        assert !HasJsonAt(sid, i + 1);
        if 0 <= i && i + 5 <= |sid| - 1 {
          assert sid[1..][i..i + 5] == sid[i + 1..i + 6];
        }
      }
      RemoveJsonOfSnapshotName(sid[1..]);
    }
  }

  /** The names `list_sessions` treats as snapshots. */
  predicate IsSnapshotName(name: string) {
    EndsWith(name, ".json") && name != "aliases.json"
  }

  /** `f"{self.session_id}"`: an unset id renders as "None". */
  function IdText(sid: Option<string>): string {
    match sid
    case Some(s) => s
    case None => "None"
  }

  // ---------------------------------------------------------------------
  // Newest first

  /** Python's `a < b` on strings: code point by code point, a proper prefix
      first. */
  function LexLess(a: string, b: string): bool {
    if b == [] then false
    else if a == [] then true
    else if a[0] != b[0] then a[0] < b[0]
    else LexLess(a[1..], b[1..])
  }

  lemma {:induction false} LexLessIrreflexive(a: string)
    ensures !LexLess(a, a)
  {
    if a != [] {
      LexLessIrreflexive(a[1..]);
    }
  }

  lemma {:induction false} LexLessTransitive(a: string, b: string, c: string)
    requires LexLess(a, b) && LexLess(b, c)
    ensures LexLess(a, c)
  {
    if a != [] && a[0] == b[0] && b[0] == c[0] {
      LexLessTransitive(a[1..], b[1..], c[1..]);
    }
  }

  lemma {:induction false} LexLessTotal(a: string, b: string)
    ensures a == b || LexLess(a, b) || LexLess(b, a)
  {
    if a != [] && b != [] && a[0] == b[0] {
      LexLessTotal(a[1..], b[1..]);
      if a[1..] == b[1..] {
        assert a == [a[0]] + a[1..] && b == [b[0]] + b[1..];
      }
    }
  }

  /** No entry has a later key than one before it. */
  ghost predicate NewestFirst<T>(key: T -> string, s: seq<T>) {
    forall i, j :: 0 <= i < j < |s| ==> !LexLess(key(s[i]), key(s[j]))
  }

  /** Place `x` after every entry whose key is not earlier than its own. */
  function Insert<T>(key: T -> string, x: T, s: seq<T>): seq<T> {
    if s == [] then [x]
    else if LexLess(key(s[0]), key(x)) then [x] + s
    else [s[0]] + Insert(key, x, s[1..])
  }

  /** `sorted(s, key=key, reverse=True)`: insertion from the left, so entries
      with equal keys stay in input order. */
  function SortNewestFirst<T>(key: T -> string, s: seq<T>): seq<T> {
    if s == [] then []
    else Insert(key, s[|s| - 1], SortNewestFirst(key, s[..|s| - 1]))
  }

  lemma {:induction false} InsertPermutes<T>(key: T -> string, x: T, s: seq<T>)
    ensures multiset(Insert(key, x, s)) == multiset(s) + multiset{x}
  {
    if s != [] && !LexLess(key(s[0]), key(x)) {
      InsertPermutes(key, x, s[1..]);
      assert s == [s[0]] + s[1..];
    }
  }

  /** An entry no later than the head of an ordered list, and hence than
      all of it, can go in front. */
  lemma PrependNewer<T>(key: T -> string, x: T, s: seq<T>)
    requires NewestFirst(key, s) && s != [] && LexLess(key(s[0]), key(x))
    ensures NewestFirst(key, [x] + s)
  {
    var r := [x] + s;
    forall j | 1 <= j < |r|
      ensures !LexLess(key(x), key(r[j]))
    {
      if LexLess(key(x), key(s[j - 1])) {
        LexLessTransitive(key(s[0]), key(x), key(s[j - 1]));
        if j - 1 == 0 {
          LexLessIrreflexive(key(s[0]));
        }
      }
    }
  }

  /** An entry no earlier than every entry of an ordered list can go in front. */
  lemma PrependLatest<T>(key: T -> string, y: T, s: seq<T>)
    requires NewestFirst(key, s)
    requires forall z :: z in s ==> !LexLess(key(y), key(z))
    ensures NewestFirst(key, [y] + s)
  {
    var r := [y] + s;
    forall i, j | 0 <= i < j < |r|
      ensures !LexLess(key(r[i]), key(r[j]))
    {
      if i > 0 {
        assert r[i] == s[i - 1] && r[j] == s[j - 1];
      } else {
        assert r[j] in s;
      }
    }
  }

  lemma {:induction false} InsertSorted<T>(key: T -> string, x: T, s: seq<T>)
    requires NewestFirst(key, s)
    ensures NewestFirst(key, Insert(key, x, s))
  {
    if s == [] {
    } else if LexLess(key(s[0]), key(x)) {
      PrependNewer(key, x, s);
    } else {
      var rest := Insert(key, x, s[1..]);
      InsertSorted(key, x, s[1..]);
      InsertPermutes(key, x, s[1..]);
      forall z | z in rest
        ensures !LexLess(key(s[0]), key(z))
      {
        assert z in multiset(rest);
        if z != x {
          assert z in s[1..];
          var k :| 0 <= k < |s| - 1 && s[1..][k] == z;
          assert s[k + 1] == z;
        }
      }
      PrependLatest(key, s[0], rest);
    }
  }

  /** The session list is ordered newest first and holds exactly the entries
      it was given, each as often as given. */
  lemma {:induction false} SortNewestFirstSpec<T>(key: T -> string, s: seq<T>)
    ensures NewestFirst(key, SortNewestFirst(key, s))
    ensures multiset(SortNewestFirst(key, s)) == multiset(s)
  {
    if s != [] {
      var p := s[..|s| - 1];
      SortNewestFirstSpec(key, p);
      InsertSorted(key, s[|s| - 1], SortNewestFirst(key, p));
      InsertPermutes(key, s[|s| - 1], SortNewestFirst(key, p));
      assert s == p + [s[|s| - 1]];
    }
  }

  /** The first entry of the ordered list has a key no other entry exceeds. */
  lemma NewestIsFirst<T>(key: T -> string, s: seq<T>)
    requires s != []
    ensures var r := SortNewestFirst(key, s);
            |r| == |s| && r[0] in s && forall x :: x in s ==> !LexLess(key(r[0]), key(x))
  {
    var r := SortNewestFirst(key, s);
    SortNewestFirstSpec(key, s);
    assert |r| == |multiset(r)| == |multiset(s)| == |s|;
    assert r[0] in multiset(s);
    forall x | x in s
      ensures !LexLess(key(r[0]), key(x))
    {
      assert x in multiset(r);
      var j :| 0 <= j < |r| && r[j] == x;
      if j == 0 {
        LexLessIrreflexive(key(x));
      }
    }
  }
}
