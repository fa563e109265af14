/** Incremental synchronisation of the chunk list with the persisted Chroma
    collection (`VectorstoreManager`): chunks are identified by the SHA-1 of
    their text, and only chunks whose id the collection does not hold yet are
    sent to it. */
module VectorstoreSync {
  import opened Documents
  import DocumentLoader

  // ---------------------------------------------------------------------
  // The filter, on values

  /** The id of every item, in order. */
  function IdsOf<T, I>(id: T -> I, items: seq<T>): (ids: seq<I>)
    ensures |ids| == |items| && forall k :: 0 <= k < |items| ==> ids[k] == id(items[k])
  {
    if items == [] then [] else IdsOf(id, items[..|items| - 1]) + [id(items[|items| - 1])]
  }

  /** The items the sync loop sends: those whose id is not among the ids read
      from the store on entry, in input order. The known ids are not updated
      inside the loop, so an id that occurs twice is sent twice. */
  function Unseen<T, I(==)>(id: T -> I, known: set<I>, items: seq<T>): seq<T> {
    if items == [] then []
    else
      var x := items[|items| - 1];
      Unseen(id, known, items[..|items| - 1]) + (if id(x) !in known then [x] else [])
  }

  function ToSet<X(!new)>(s: seq<X>): (r: set<X>)
    ensures forall x :: x in r <==> x in s
  {
    set x | x in s
  }

  /** An item is sent exactly when it occurs in the input and its id is not
      known to the store. */
  lemma {:induction false} UnseenMembership<T, I>(id: T -> I, known: set<I>, items: seq<T>, x: T)
    ensures x in Unseen(id, known, items) <==> x in items && id(x) !in known
  {
    if items != [] {
      var p := items[..|items| - 1];
      UnseenMembership(id, known, p, x);
      assert items == p + [items[|items| - 1]];
    }
  }

  /** Nothing is sent exactly when every item's id is already known. */
  lemma UnseenEmpty<T, I>(id: T -> I, known: set<I>, items: seq<T>)
    ensures Unseen(id, known, items) == [] <==> forall i :: 0 <= i < |items| ==> id(items[i]) in known
  {
    var sent := Unseen(id, known, items);
    if sent != [] {
      UnseenMembership(id, known, items, sent[0]);
    }
    forall i | 0 <= i < |items| && id(items[i]) !in known
      ensures sent != []
    {
      UnseenMembership(id, known, items, items[i]);
    }
  }

  lemma IdsOfAppend<T, I>(id: T -> I, a: seq<T>, b: seq<T>)
    ensures IdsOf(id, a + b) == IdsOf(id, a) + IdsOf(id, b)
  {
  }

  /** The ids sent hold each unknown id as many times as the input produces
      it, and no known id at all: duplicates inside one call are not collapsed. */
  lemma {:induction false} UnseenMultiplicity<T, I>(id: T -> I, known: set<I>, items: seq<T>, v: I)
    ensures multiset(IdsOf(id, Unseen(id, known, items)))[v]
            == if v in known then 0 else multiset(IdsOf(id, items))[v]
  {
    if items != [] {
      var p, x := items[..|items| - 1], items[|items| - 1];
      var extra := if id(x) !in known then [x] else [];
      UnseenMultiplicity(id, known, p, v);
      IdsOfAppend(id, Unseen(id, known, p), extra);
      assert IdsOf(id, Unseen(id, known, items)) == IdsOf(id, Unseen(id, known, p)) + IdsOf(id, extra);
      assert IdsOf(id, items) == IdsOf(id, p) + [id(x)];
    }
  }

  /** One item given twice to an empty store is sent twice under the same id. */
  lemma DuplicateSentTwice<T, I>(id: T -> I, x: T)
    ensures IdsOf(id, Unseen(id, {}, [x, x])) == [id(x), id(x)]
  {
    ReadFailureSendsAll(id, [x, x]);
    var ids := IdsOf(id, [x, x]);
    assert ids[0] == id(x) && ids[1] == id(x);
  }

  /** When the id read fails the known set is empty and every item is sent. */
  lemma {:induction false} ReadFailureSendsAll<T, I>(id: T -> I, items: seq<T>)
    ensures Unseen(id, {}, items) == items
  {
    if items != [] {
      ReadFailureSendsAll(id, items[..|items| - 1]);
    }
  }

  /** After the ids sent are added to the known ones, every item's id is
      known: the sync leaves nothing behind. */
  lemma SyncStoresEveryId<T, I(!new)>(id: T -> I, known: set<I>, items: seq<T>, x: T)
    requires x in items
    ensures id(x) in known + ToSet(IdsOf(id, Unseen(id, known, items)))
  {
    var sent := Unseen(id, known, items);
    UnseenMembership(id, known, items, x);
    if id(x) !in known {
      var k :| 0 <= k < |sent| && sent[k] == x;
      assert IdsOf(id, sent)[k] == id(x);
    }
  }

  /** Once the ids sent are stored, syncing the same items again sends nothing. */
  lemma SecondSyncSendsNothing<T, I(!new)>(id: T -> I, known: set<I>, items: seq<T>)
    ensures Unseen(id, known + ToSet(IdsOf(id, Unseen(id, known, items))), items) == []
  {
    var known' := known + ToSet(IdsOf(id, Unseen(id, known, items)));
    var r := Unseen(id, known', items);
    if r != [] {
      UnseenMembership(id, known', items, r[0]);
      SyncStoresEveryId(id, known, items, r[0]);
    }
  }

  // ---------------------------------------------------------------------
  // Stamping the chunks

  /** `doc.metadata["id"] = doc_id` */
  function WithId(m: Metadata, docId: string): Metadata {
    m["id" := MStr(docId)]
  }

  /** Every entry of `cur` is its entry of `orig`, possibly stamped with the
      hash of its text, and the first `i` entries are stamped. */
  ghost predicate StampedUpTo(hash: string -> string, chunks: seq<Document>, orig: seq<Metadata>,
                              cur: seq<Metadata>, i: nat)
  {
    && |orig| == |chunks| && |cur| == |chunks| && i <= |chunks|
    && (forall j :: 0 <= j < |chunks| ==>
          cur[j] == orig[j] || cur[j] == WithId(orig[j], hash(chunks[j].pageContent)))
    && (forall j :: 0 <= j < i ==> cur[j] == WithId(orig[j], hash(chunks[j].pageContent)))
  }

  /** Stamping the object at position `i` (wherever else it occurs) stamps one
      more position; stamping an entry twice changes nothing. */
  lemma StampedStep(hash: string -> string, chunks: seq<Document>, orig: seq<Metadata>,
                    cur: seq<Metadata>, cur': seq<Metadata>, i: nat)
    requires Coherent(chunks, orig) && StampedUpTo(hash, chunks, orig, cur, i) && i < |chunks|
    requires |cur'| == |chunks|
    requires forall j :: 0 <= j < |chunks| ==>
               cur'[j] == if chunks[j] == chunks[i] then WithId(cur[i], hash(chunks[i].pageContent)) else cur[j]
    ensures StampedUpTo(hash, chunks, orig, cur', i + 1)
  {
    var h := hash(chunks[i].pageContent);
    assert WithId(WithId(orig[i], h), h) == WithId(orig[i], h);
  }

  // ---------------------------------------------------------------------
  // The store

  /** The arguments of one `add_documents` call on the collection. */
  datatype Batch = Batch(texts: seq<string>, ids: seq<string>)

  /** The persisted Chroma collection, reduced to the ids it holds. Whether
      `get(include=["ids"])` raises is a property of the store; every add call
      is recorded so that "the store was not touched" can be stated. */
  class VectorStore {
    var ids: set<string>
    var readFails: bool
    ghost var batches: seq<Batch>

    constructor (ids: set<string>, readFails: bool)
      ensures this.ids == ids && this.readFails == readFails && batches == []
    {
      this.ids := ids;
      this.readFails := readFails;
      batches := [];
    }

    /** The ids the sync starts from: the stored ids, or none when the read
        raises. */
    function Known(): set<string>
      reads this
    {
      if readFails then {} else ids
    }

    /** `Chroma.add_documents(docs, ids=ids)`: the ids join the collection. */
    method Add(docs: seq<Document>, newIds: seq<string>)
      requires |docs| == |newIds|
      modifies this
      ensures ids == old(ids) + ToSet(newIds) && readFails == old(readFails)
      ensures batches == old(batches) + [Batch(Texts(docs), newIds)]
    {
      ids := ids + ToSet(newIds);
      batches := batches + [Batch(Texts(docs), newIds)];
    }
  }

  // ---------------------------------------------------------------------
  // The manager

  /** What `needs_update` can end in: an answer, or the `KeyError` raised for a
      chunk without an "id" entry. */
  datatype Check = Decided(needed: bool) | MissingId

  /** Whether a metadata id value is one of the stored ids (a non-text value
      never is). */
  predicate IsStored(v: MetaValue, ids: set<string>) {
    v.MStr? && v.s in ids
  }

  /** `{doc.metadata["id"] for doc in chunks}`, or None when some chunk has no
      "id" entry. */
  function IdSet(chunks: seq<Document>): (r: Option<set<MetaValue>>)
    reads chunks
    ensures r.None? <==> exists i :: 0 <= i < |chunks| && "id" !in chunks[i].metadata
    ensures r.Some? ==> forall v :: v in r.value <==>
              exists i :: 0 <= i < |chunks| && chunks[i].metadata["id"] == v
  {
    if chunks == [] then Some({})
    else
      var rest := IdSet(chunks[1..]);
      if "id" !in chunks[0].metadata || rest.None? then None
      else Some({chunks[0].metadata["id"]} + rest.value)
  }

  /** The `issuperset` test of `needs_update`, element by element. */
  lemma StoredSuperset(current: set<MetaValue>, ids: set<string>)
    ensures current <= (set s | s in ids :: MStr(s)) <==> forall v :: v in current ==> IsStored(v, ids)
  {
  }

  class VectorstoreManager {
    const chromaPath: string
    const computeSha1: string -> string
    /** The collection persisted under `chromaPath`. */
    const disk: VectorStore
    var vs: VectorStore?

    ghost predicate Valid()
      reads this
    {
      vs == null || vs == disk
    }

    /** `__init__`: the store path comes from the "vector_db_path" setting,
        "./vector_db" by default; no store is open yet. */
    constructor (config: map<string, string>, computeSha1: string -> string, disk: VectorStore)
      ensures chromaPath == (if "vector_db_path" in config then config["vector_db_path"] else "./vector_db")
      ensures this.computeSha1 == computeSha1 && this.disk == disk && vs == null
      ensures Valid()
    {
      chromaPath := if "vector_db_path" in config then config["vector_db_path"] else "./vector_db";
      this.computeSha1 := computeSha1;
      this.disk := disk;
      vs := null;
    }

    /** `load_vectorstore`: open the collection persisted under `chromaPath`. */
    method LoadVectorstore()
      modifies this
      ensures vs == disk && Valid()
    {
      vs := disk;
    }

    /** The id `add_documents` gives a chunk: the hash of its text. */
    function DocId(d: Document): string {
      computeSha1(d.pageContent)
    }

    /** The loop of `add_documents`: stamp every chunk with the hash of its
        text and collect, in order, the chunks whose hash is not in
        `existing`, with their ids. */
    method StampAndCollect(chunks: seq<Document>, existing: set<string>)
      returns (newChunks: seq<Document>, newIds: seq<string>)
      modifies chunks
      ensures forall i :: 0 <= i < |chunks| ==>
                chunks[i].metadata == WithId(old(chunks[i].metadata), DocId(chunks[i]))
      ensures newChunks == Unseen(DocId, existing, chunks)
      ensures newIds == IdsOf(DocId, newChunks)
    {
      ghost var orig := Current(chunks);
      newChunks, newIds := [], [];
      for i := 0 to |chunks|
        invariant newChunks == Unseen(DocId, existing, chunks[..i])
        invariant newIds == IdsOf(DocId, newChunks)
        invariant StampedUpTo(computeSha1, chunks, orig, Current(chunks), i)
      {
        var doc := chunks[i];
        ghost var cur := Current(chunks);
        var docId := computeSha1(doc.pageContent);
        doc.metadata := doc.metadata["id" := MStr(docId)];
        StampedStep(computeSha1, chunks, orig, cur, Current(chunks), i);
        assert chunks[..i + 1] == chunks[..i] + [doc];
        if docId !in existing {
          newChunks := newChunks + [doc];
          newIds := newIds + [docId];
        }
      }
      assert chunks[..|chunks|] == chunks;
    }

    /** `add_documents`: open the store if needed, read its ids (none if the
        read raises), stamp every chunk with the hash of its text, and send
        the chunks whose hash was not read, in one call, if there are any. */
    method AddDocuments(chunks: seq<Document>)
      requires Valid()
      modifies this, disk, chunks
      ensures Valid() && vs == disk && disk.readFails == old(disk.readFails)
      ensures forall i :: 0 <= i < |chunks| ==>
                chunks[i].metadata == WithId(old(chunks[i].metadata), DocId(chunks[i]))
      ensures var sent := Unseen(DocId, old(disk.Known()), chunks);
              if sent == [] then
                disk.ids == old(disk.ids) && disk.batches == old(disk.batches)
              else
                && disk.ids == old(disk.ids) + ToSet(IdsOf(DocId, sent))
                && disk.batches == old(disk.batches) + [Batch(Texts(sent), IdsOf(DocId, sent))]
    {
      if vs == null {
        LoadVectorstore();
      }
      var existing := if vs.readFails then {} else vs.ids;
      var newChunks, newIds := StampAndCollect(chunks, existing);
      if |newChunks| > 0 {
        vs.Add(newChunks, newIds);
      }
    }

    /** `needs_update`: true when no store is open or its ids cannot be read;
        otherwise whether some chunk's current "id" entry is not stored. */
    function NeedsUpdate(chunks: seq<Document>): (r: Check)
      reads this, vs, chunks
      ensures vs == null || vs.readFails ==> r == Decided(true)
      ensures vs != null && !vs.readFails ==>
                (r == MissingId <==> exists i :: 0 <= i < |chunks| && "id" !in chunks[i].metadata)
      ensures vs != null && !vs.readFails && r.Decided? ==>
                (r.needed <==> exists i :: 0 <= i < |chunks| && !IsStored(chunks[i].metadata["id"], vs.ids))
    {
      if vs == null || vs.readFails then Decided(true)
      else
        match IdSet(chunks)
        case None => MissingId
        case Some(current) =>
          StoredSuperset(current, vs.ids);
          Decided(!(current <= set s | s in vs.ids :: MStr(s)))
    }
  
    /** With the positional ids the loader gives (they always contain ':') and
        a store holding only hexadecimal digests (which never do),
        `needs_update` answers true for any non-empty chunk list, however
        complete the store is. */
    lemma PositionalIdsAlwaysNeedUpdate(chunks: seq<Document>)
      requires vs != null && !vs.readFails && |chunks| > 0
      requires forall s :: s in vs.ids ==> ':' !in s
      requires forall i :: 0 <= i < |chunks| ==>
                 "id" in chunks[i].metadata && chunks[i].metadata["id"].MStr? && ':' in chunks[i].metadata["id"].s
      ensures NeedsUpdate(chunks) == Decided(true)
    {
      assert !IsStored(chunks[0].metadata["id"], vs.ids);
    }

    /** The pipeline as the chat script runs it: chunks that have just been
        through `assign_chunk_ids` always need an update against a readable
        store of digests, even a complete one. */
    method LoaderChunksAlwaysNeedUpdate(chunks: seq<Document>) returns (result: seq<Document>)
      requires vs != null && !vs.readFails && |chunks| > 0
      requires forall s :: s in vs.ids ==> ':' !in s
      requires forall i :: 0 <= i < |chunks| ==> DocumentLoader.SourceIsText(chunks[i].metadata)
      modifies chunks
      ensures result == chunks && NeedsUpdate(result) == Decided(true)
    {
      ghost var orig := Current(chunks);
      ghost var ords := DocumentLoader.Ordinals(DocumentLoader.KeysOf(orig));
      result := DocumentLoader.AssignChunkIds(chunks);
      forall i | 0 <= i < |result|
        ensures "id" in result[i].metadata && result[i].metadata["id"].MStr? && ':' in result[i].metadata["id"].s
      {
        DocumentLoader.LastOccurrence(chunks, i, |chunks|);
        var l := DocumentLoader.LastBefore(chunks, chunks[i], |chunks|);
        DocumentLoader.AssignedIdHasColon(orig[l], ords[l]);
      }
      PositionalIdsAlwaysNeedUpdate(result);
    }

    /** `needs_update` as evidently intended: true when no store is open or its
        ids cannot be read, otherwise exactly when `add_documents` would send
        something, that is when some chunk's content hash is not stored. */
    function NeedsUpdateByContent(chunks: seq<Document>): (needed: bool)
      reads this, vs
      ensures vs == null || vs.readFails ==> needed
      ensures vs != null && !vs.readFails ==> (needed <==> Unseen(DocId, vs.ids, chunks) != [])
    {
      vs == null || vs.readFails ||
        (UnseenEmpty(DocId, vs.ids, chunks);
         exists i :: 0 <= i < |chunks| && computeSha1(chunks[i].pageContent) !in vs.ids)
    }

    /** Once a sync has added what it sent to a readable store, the corrected
        test answers false for the same chunks. */
    lemma SyncedStoreNeedsNoUpdate(chunks: seq<Document>, before: set<string>)
      requires vs != null && !vs.readFails
      requires vs.ids == before + ToSet(IdsOf(DocId, Unseen(DocId, before, chunks)))
      ensures !NeedsUpdateByContent(chunks)
    {
      forall i | 0 <= i < |chunks|
        ensures DocId(chunks[i]) in vs.ids
      {
        SyncStoresEveryId(DocId, before, chunks, chunks[i]);
      }
    }
  }
}
