/** Positional chunk identity (`BaseDocumentLoader.assign_chunk_ids`): every
    chunk produced by the splitter gets the ordinal it has among the chunks of
    the same `file:page`, counted from 0 in input order, and the composite id
    `file:page:ordinal`. */
module DocumentLoader {
  import opened Documents

  /** `os.path.basename` on POSIX: the part of the path after its last '/'. */
  function Basename(p: string): string {
    if p == [] then []
    else if p[|p| - 1] == '/' then []
    else Basename(p[..|p| - 1]) + [p[|p| - 1]]
  }

  /** The base name is the longest suffix of the path without a '/': it has
      none, and it is the whole path or follows a '/'. */
  lemma {:induction false} BasenameIsLastComponent(p: string)
    ensures var b := Basename(p);
            && '/' !in b
            && |b| <= |p| && b == p[|p| - |b|..]
            && (|b| < |p| ==> p[|p| - |b| - 1] == '/')
  {
    if p != [] && p[|p| - 1] != '/' {
      BasenameIsLastComponent(p[..|p| - 1]);
    }
  }

  /** The splitter copies the loader's "source" path into every chunk; basename
      only accepts text. */
  predicate SourceIsText(m: Metadata) {
    "source" in m ==> m["source"].MStr?
  }

  /** `os.path.basename(metadata.get("source", "unknown.pdf"))` */
  function FileOf(m: Metadata): string
    requires SourceIsText(m)
  {
    Basename(if "source" in m then m["source"].s else "unknown.pdf")
  }

  /** `metadata.get("page", -1)` */
  function PageOf(m: Metadata): MetaValue {
    Get(m, "page", MInt(-1))
  }

  /** The counter key `f"{file}:{page}"`. */
  function KeyOf(m: Metadata): string
    requires SourceIsText(m)
  {
    FileOf(m) + ":" + Render(PageOf(m))
  }

  /** The four metadata writes of one loop iteration. */
  function Stamp(m: Metadata, file: string, page: MetaValue, idx: nat, id: string): Metadata {
    m["file" := MStr(file)]["page" := page]["chunk" := MInt(idx)]["id" := MStr(id)]
  }

  /** The metadata of a chunk after it received ordinal `idx`. */
  function Assigned(m: Metadata, idx: nat): Metadata
    requires SourceIsText(m)
  {
    Stamp(m, FileOf(m), PageOf(m), idx, KeyOf(m) + ":" + NatToString(idx))
  }

  /** What a chunk's metadata holds once it received ordinal `idx`: its file
      name, its page (default -1), the ordinal and the id `file:page:idx`; every
      other entry is kept and no other entry appears. */
  lemma AssignedFields(m: Metadata, idx: nat)
    requires SourceIsText(m)
    ensures var m' := Assigned(m, idx);
            && "file" in m' && "page" in m' && "chunk" in m' && "id" in m'
            && m'["file"] == MStr(FileOf(m)) && m'["page"] == PageOf(m) && m'["chunk"] == MInt(idx)
            && m'["id"] == MStr(FileOf(m) + ":" + Render(PageOf(m)) + ":" + NatToString(idx))
            && (forall k :: k in m && k != "file" && k != "page" && k != "chunk" && k != "id" ==>
                  k in m' && m'[k] == m[k])
            && (forall k :: k in m' ==> k in m || k == "file" || k == "page" || k == "chunk" || k == "id")
  {
    assert "file"[0] != "page"[0];
  }
  /** A positional id always contains ':', so it is never a hexadecimal digest. */
  lemma AssignedIdHasColon(m: Metadata, idx: nat)
    requires SourceIsText(m)
    ensures "id" in Assigned(m, idx) && Assigned(m, idx)["id"].MStr? && ':' in Assigned(m, idx)["id"].s
  {
    AssignedFields(m, idx);
    var id := FileOf(m) + ":" + Render(PageOf(m)) + ":" + NatToString(idx);
    assert id[|FileOf(m)|] == ':';
  }

  /** Two chunks with the same `file:page` key but different ordinals get
      different ids. */
  lemma AssignedIdsDistinct(m1: Metadata, m2: Metadata, i1: nat, i2: nat)
    requires SourceIsText(m1) && SourceIsText(m2) && KeyOf(m1) == KeyOf(m2) && i1 != i2
    ensures Assigned(m1, i1)["id"] != Assigned(m2, i2)["id"]
  {
    var prefix := KeyOf(m1) + ":";
    var id1, id2 := prefix + NatToString(i1), prefix + NatToString(i2);
    if id1 == id2 {
      assert id1[|prefix|..] == NatToString(i1) && id2[|prefix|..] == NatToString(i2);
      NatToStringInjective(i1, i2);
    }
  }


  /** Stamping twice leaves what the second stamp wrote. */
  lemma StampTwice(m: Metadata, f: string, p: MetaValue, n: nat, id: string,
                   f2: string, p2: MetaValue, n2: nat, id2: string)
    ensures Stamp(Stamp(m, f, p, n, id), f2, p2, n2, id2) == Stamp(m, f2, p2, n2, id2)
  {
    var a, b := Stamp(Stamp(m, f, p, n, id), f2, p2, n2, id2), Stamp(m, f2, p2, n2, id2);
    assert a.Keys == b.Keys;
  }

  /** Assigning leaves "source" and "page" as they were, so the chunk keeps its
      file and its counter key. */
  lemma AssignedKeepsKey(m: Metadata, n: nat)
    requires SourceIsText(m)
    ensures SourceIsText(Assigned(m, n)) && FileOf(Assigned(m, n)) == FileOf(m)
    ensures PageOf(Assigned(m, n)) == PageOf(m) && KeyOf(Assigned(m, n)) == KeyOf(m)
  {
    var m2 := Assigned(m, n);
    assert "source" in m ==> m2["source"] == m["source"];
  }

  /** Assigning again only replaces the ordinal: what happens when the list
      holds one document object twice. */
  lemma AssignedTwice(m: Metadata, n: nat, idx: nat)
    requires SourceIsText(m)
    ensures SourceIsText(Assigned(m, n)) && Assigned(Assigned(m, n), idx) == Assigned(m, idx)
  {
    AssignedKeepsKey(m, n);
    StampTwice(m, FileOf(m), PageOf(m), n, KeyOf(m) + ":" + NatToString(n),
               FileOf(m), PageOf(m), idx, KeyOf(m) + ":" + NatToString(idx));
  }

  // ---------------------------------------------------------------------
  // The ordinal specification

  /** Number of occurrences of `k` in `s`. */
  function Count<K(==)>(s: seq<K>, k: K): nat {
    if s == [] then 0
    else Count(s[..|s| - 1], k) + (if s[|s| - 1] == k then 1 else 0)
  }

  /** The ordinal position `i` receives: how many earlier chunks share its key. */
  function Ordinals<K(==)>(keys: seq<K>): (ords: seq<nat>)
    ensures |ords| == |keys|
  {
    seq(|keys|, i requires 0 <= i < |keys| => Count(keys[..i], keys[i]))
  }

  /** The values at the positions whose key is `k`, in input order. */
  function Project<K(==)>(keys: seq<K>, vals: seq<nat>, k: K): seq<nat>
    requires |keys| == |vals|
  {
    if keys == [] then []
    else Project(keys[..|keys| - 1], vals[..|vals| - 1], k)
         + (if keys[|keys| - 1] == k then [vals[|vals| - 1]] else [])
  }

  function Range(n: nat): (r: seq<nat>)
    ensures |r| == n && forall j :: 0 <= j < n ==> r[j] == j
  {
    seq(n, j requires 0 <= j < n => j)
  }

  lemma OrdinalsSnoc<K>(keys: seq<K>, x: K)
    ensures Ordinals(keys + [x]) == Ordinals(keys) + [Count(keys, x)]
  {
    var s := keys + [x];
    assert s[..|keys|] == keys;
    forall i | 0 <= i < |keys| ensures s[..i] == keys[..i] { }
  }

  /** For each key, the ordinals handed out are exactly 0, 1, ..., n-1 in input
      order, where n is the number of chunks with that key. */
  lemma {:induction false} OrdinalsPerKey<K>(keys: seq<K>, k: K)
    ensures Project(keys, Ordinals(keys), k) == Range(Count(keys, k))
  {
    if keys != [] {
      var p, x := keys[..|keys| - 1], keys[|keys| - 1];
      assert keys == p + [x];
      OrdinalsSnoc(p, x);
      OrdinalsPerKey(p, k);
      assert Ordinals(keys)[..|keys| - 1] == Ordinals(p);
      if x == k {
        assert Range(Count(p, k)) + [Count(p, k)] == Range(Count(p, k) + 1);
      }
    }
  }

  lemma {:induction false} CountMonotone<K>(s: seq<K>, a: nat, b: nat, k: K)
    requires a <= b <= |s|
    ensures Count(s[..a], k) <= Count(s[..b], k)
  {
    if a < b {
      CountMonotone(s, a, b - 1, k);
      assert s[..b][..b - 1] == s[..b - 1];
    }
  }

  /** Two chunks with the same key never share an ordinal: a later chunk's
      ordinal is strictly larger. */
  lemma OrdinalsIncrease<K>(keys: seq<K>, i: nat, j: nat)
    requires i < j < |keys| && keys[i] == keys[j]
    ensures Ordinals(keys)[i] < Ordinals(keys)[j]
  {
    CountMonotone(keys, i + 1, j, keys[j]);
    assert keys[..i + 1][..i] == keys[..i];
  }

  /** Every ordinal is below the number of chunks sharing its key. */
  lemma OrdinalBelowCount<K>(keys: seq<K>, i: nat)
    requires i < |keys|
    ensures Ordinals(keys)[i] < Count(keys, keys[i])
  {
    CountMonotone(keys, i + 1, |keys|, keys[i]);
    assert keys[..i + 1][..i] == keys[..i];
    assert keys[..|keys|] == keys;
  }

  // ---------------------------------------------------------------------
  // The loop

  /** The tracker after the keys `s` went through the loop. */
  function Tracker<K(==)>(s: seq<K>): map<K, nat> {
    if s == [] then map[]
    else var t := Tracker(s[..|s| - 1]); t[s[|s| - 1] := Get(t, s[|s| - 1], 0) + 1]
  }

  /** The tracker holds, for every key, how many chunks with that key it has seen. */
  lemma {:induction false} TrackerCounts<K>(s: seq<K>, k: K)
    ensures Get(Tracker(s), k, 0) == Count(s, k)
  {
    if s != [] {
      TrackerCounts(s[..|s| - 1], k);
    }
  }

  /** One more key through the loop bumps its counter, which was the key's ordinal. */
  lemma TrackerNext<K>(keys: seq<K>, i: nat, key: K, tracker: map<K, nat>, tracker': map<K, nat>)
    requires i < |keys| && key == keys[i] && tracker == Tracker(keys[..i])
    requires tracker' == tracker[key := Get(tracker, key, 0) + 1]
    ensures Get(tracker, key, 0) == Ordinals(keys)[i]
    ensures tracker' == Tracker(keys[..i + 1])
  {
    assert keys[..i + 1][..i] == keys[..i];
    TrackerCounts(keys[..i], keys[i]);
  }

  /** The counter keys of a list of metadata dictionaries. */
  function KeysOf(ms: seq<Metadata>): (keys: seq<string>)
    requires forall i :: 0 <= i < |ms| ==> SourceIsText(ms[i])
    ensures |keys| == |ms|
  {
    if ms == [] then [] else KeysOf(ms[..|ms| - 1]) + [KeyOf(ms[|ms| - 1])]
  }

  lemma {:induction false} KeysOfAt(ms: seq<Metadata>, i: nat)
    requires forall j :: 0 <= j < |ms| ==> SourceIsText(ms[j])
    requires i < |ms|
    ensures KeysOf(ms)[i] == KeyOf(ms[i])
  {
    if i < |ms| - 1 {
      KeysOfAt(ms[..|ms| - 1], i);
    }
  }

  /** Position `i` is the last place in `chunks[..n]` where its object occurs. */
  ghost predicate LastIn(chunks: seq<Document>, i: nat, n: nat)
    requires i < n <= |chunks|
  {
    forall j :: i < j < n ==> chunks[j] != chunks[i]
  }

  /** The last position before `n` that holds `x`, or -1. */
  ghost function LastBefore(chunks: seq<Document>, x: Document, n: nat): (l: int)
    requires n <= |chunks|
    ensures -1 <= l < n && (0 <= l ==> chunks[l] == x)
  {
    if n == 0 then -1 else if chunks[n - 1] == x then n - 1 else LastBefore(chunks, x, n - 1)
  }

  lemma {:induction false} LastBeforeIsLast(chunks: seq<Document>, i: nat, n: nat)
    requires i < n <= |chunks| && LastIn(chunks, i, n)
    ensures LastBefore(chunks, chunks[i], n) == i
  {
    if n - 1 != i {
      LastBeforeIsLast(chunks, i, n - 1);
    }
  }

  /** Every position is followed by a last occurrence of its object. */
  lemma {:induction false} LastOccurrence(chunks: seq<Document>, i: nat, n: nat)
    requires i < n <= |chunks|
    ensures var l := LastBefore(chunks, chunks[i], n);
            i <= l < n && chunks[l] == chunks[i] && LastIn(chunks, l, n)
  {
    if chunks[n - 1] != chunks[i] {
      LastOccurrence(chunks, i, n - 1);
    }
  }

  /** The metadata an entry has once the positions before `l + 1` are done. */
  ghost function Expected(m: Metadata, ords: seq<nat>, l: int): Metadata
    requires SourceIsText(m) && l < |ords|
  {
    if l < 0 then m else Assigned(m, ords[l])
  }

  /** An entry already processed keeps its key, and processing it again gives
      what processing it only now would have given. */
  lemma ExpectedStep(m: Metadata, ords: seq<nat>, l: int, idx: nat)
    requires SourceIsText(m) && l < |ords|
    ensures SourceIsText(Expected(m, ords, l)) && KeyOf(Expected(m, ords, l)) == KeyOf(m)
    ensures Assigned(Expected(m, ords, l), idx) == Assigned(m, idx)
  {
    if 0 <= l {
      AssignedKeepsKey(m, ords[l]);
      AssignedTwice(m, ords[l], idx);
    }
  }

  /** The loop invariant: every entry holds what the positions before `i` made of it. */
  ghost predicate Progressed(chunks: seq<Document>, cur: seq<Metadata>, orig: seq<Metadata>, ords: seq<nat>, i: nat) {
    && |cur| == |chunks| && |orig| == |chunks| && |ords| == |chunks| && i <= |chunks|
    && forall j :: 0 <= j < |chunks| ==>
         SourceIsText(orig[j]) && cur[j] == Expected(orig[j], ords, LastBefore(chunks, chunks[j], i))
  }

  lemma ProgressedStep(chunks: seq<Document>, cur: seq<Metadata>, cur': seq<Metadata>,
                       orig: seq<Metadata>, ords: seq<nat>, i: nat)
    requires Coherent(chunks, orig) && Progressed(chunks, cur, orig, ords, i) && i < |chunks|
    requires |cur'| == |chunks|
    requires forall j :: 0 <= j < |chunks| ==>
               cur'[j] == if chunks[j] == chunks[i] then Assigned(orig[i], ords[i]) else cur[j]
    ensures Progressed(chunks, cur', orig, ords, i + 1)
  {
  }

  /** One iteration of the loop: read the counter of the chunk's key, bump it,
      and write file, page, chunk and id into the chunk's metadata. */
  method AssignNext(doc: Document, tracker: map<string, nat>)
    returns (key: string, idx: nat, tracker': map<string, nat>)
    requires SourceIsText(doc.metadata)
    modifies doc
    ensures key == KeyOf(old(doc.metadata))
    ensures idx == Get(tracker, key, 0)
    ensures tracker' == tracker[key := idx + 1]
    ensures doc.metadata == Assigned(old(doc.metadata), idx)
  {
    var file := FileOf(doc.metadata);
    var page := PageOf(doc.metadata);
    key := file + ":" + Render(page);

    idx := Get(tracker, key, 0);
    tracker' := tracker[key := idx + 1];

    doc.metadata := Stamp(doc.metadata, file, page, idx, file + ":" + Render(page) + ":" + NatToString(idx));
  }

  /** The state of `assign_chunk_ids` before position `i`: the counters hold
      the counts of the keys seen so far and every entry holds what the
      positions before `i` made of it. */
  ghost predicate LoopInv(chunks: seq<Document>, cur: seq<Metadata>, orig: seq<Metadata>, keys: seq<string>,
                          ords: seq<nat>, tracker: map<string, nat>, i: nat)
  {
    && Coherent(chunks, orig) && Progressed(chunks, cur, orig, ords, i)
    && keys == KeysOf(orig) && ords == Ordinals(keys) && tracker == Tracker(keys[..i])
  }

  /** Before position `i` is processed, its entry still has the key it had on
      entry. */
  lemma StepStart(chunks: seq<Document>, cur: seq<Metadata>, orig: seq<Metadata>, keys: seq<string>,
                  ords: seq<nat>, tracker: map<string, nat>, i: nat)
    requires LoopInv(chunks, cur, orig, keys, ords, tracker, i) && i < |chunks|
    ensures SourceIsText(cur[i]) && KeyOf(cur[i]) == keys[i]
  {
    KeysOfAt(orig, i);
    ExpectedStep(orig[i], ords, LastBefore(chunks, chunks[i], i), 0);
  }

  /** Reading and bumping the counter of the key at position `i` and writing
      the ordinal into that object (wherever else it occurs) moves the state
      on by one position. */
  lemma StepEnd(chunks: seq<Document>, cur: seq<Metadata>, cur': seq<Metadata>, orig: seq<Metadata>,
                keys: seq<string>, ords: seq<nat>, tracker: map<string, nat>, i: nat,
                key: string, idx: nat, tracker': map<string, nat>)
    requires LoopInv(chunks, cur, orig, keys, ords, tracker, i) && i < |chunks|
    requires SourceIsText(cur[i]) && key == keys[i]
    requires idx == Get(tracker, key, 0) && tracker' == tracker[key := idx + 1]
    requires |cur'| == |chunks|
    requires forall j :: 0 <= j < |chunks| ==>
               cur'[j] == if chunks[j] == chunks[i] then Assigned(cur[i], idx) else cur[j]
    ensures LoopInv(chunks, cur', orig, keys, ords, tracker', i + 1)
  {
    TrackerNext(keys, i, key, tracker, tracker');
    ExpectedStep(orig[i], ords, LastBefore(chunks, chunks[i], i), idx);
    ProgressedStep(chunks, cur, cur', orig, ords, i);
  }

  /** The loop body of `assign_chunk_ids` at position `i`. */
  method AssignAt(chunks: seq<Document>, i: nat, tracker: map<string, nat>,
                  ghost keys: seq<string>, ghost orig: seq<Metadata>, ghost ords: seq<nat>)
    returns (tracker': map<string, nat>)
    requires LoopInv(chunks, Current(chunks), orig, keys, ords, tracker, i) && i < |chunks|
    modifies chunks[i]
    ensures LoopInv(chunks, Current(chunks), orig, keys, ords, tracker', i + 1)
  {
    var doc := chunks[i];
    ghost var cur := Current(chunks);
    StepStart(chunks, cur, orig, keys, ords, tracker, i);
    var key, idx;
    key, idx, tracker' := AssignNext(doc, tracker);
    StepEnd(chunks, cur, Current(chunks), orig, keys, ords, tracker, i, key, idx, tracker');
  }

  /** `BaseDocumentLoader.assign_chunk_ids`: the same list is returned; every
      document ends with the metadata its last occurrence in the list assigned,
      whose ordinal is the one `Ordinals` gives for the keys read on entry. */
  method AssignChunkIds(chunks: seq<Document>) returns (result: seq<Document>)
    requires forall i :: 0 <= i < |chunks| ==> SourceIsText(chunks[i].metadata)
    modifies chunks
    ensures result == chunks
    ensures forall i :: 0 <= i < |chunks| ==> SourceIsText(old(chunks[i].metadata))
    ensures forall i :: 0 <= i < |chunks| && LastIn(chunks, i, |chunks|) ==>
              chunks[i].metadata == Assigned(old(chunks[i].metadata), old(Ordinals(KeysOf(Current(chunks))))[i])
  {
    ghost var orig := Current(chunks);
    ghost var keys := KeysOf(orig);
    ghost var ords := Ordinals(keys);
    assert keys[..0] == [];
    var tracker: map<string, nat> := map[];
    assert LoopInv(chunks, orig, orig, keys, ords, tracker, 0);
    for i := 0 to |chunks|
      invariant LoopInv(chunks, Current(chunks), orig, keys, ords, tracker, i)
    {
      tracker := AssignAt(chunks, i, tracker, keys, orig, ords);
    }
    forall i | 0 <= i < |chunks| && LastIn(chunks, i, |chunks|)
      ensures chunks[i].metadata == Assigned(orig[i], ords[i])
    {
      LastBeforeIsLast(chunks, i, |chunks|);
    }
    result := chunks;
  }
}
