# Local RAG chat app: verified model of the bookkeeping core

This project is a Dafny model of the bookkeeping inside a local
retrieval-augmented chat application. The application splits PDF pages into
chunks, keeps the chunks in a persisted Chroma vector store, answers
questions with a local LLM, and saves chat sessions as JSON snapshots.

The model covers four pieces of that application.

- **Positional chunk ids** (`document_loader.dfy`, module `DocumentLoader`).
  `assign_chunk_ids` keeps one counter per `file:page` key in a dictionary.
  It writes `file`, `page`, `chunk` and the id `file:page:chunk` into each
  chunk's metadata, in place. The model is a loop over a sequence of
  `Document` objects whose metadata field is updated. The loop is proved
  against `Ordinals`: position `i` gets the number of earlier chunks with
  the same key. Lemmas then show that every key gets exactly `0..n-1` in
  input order. The same object may occur twice in the list; it then ends
  with what its last occurrence wrote.
- **Incremental vector-store sync** (`vectorstore_manager.dfy`, module
  `VectorstoreSync`).
  - `add_documents` stamps every chunk with the SHA-1 of its text. It sends
    the chunks whose id the store did not report, in one call, and only
    when there is at least one.
  - `needs_update` answers whether some chunk's current id is not stored.
  - The store is a class holding a set of ids. A flag says whether reading
    them raises. A ghost log of the add calls lets the model state that the
    store was not touched.
  - SHA-1 is an uninterpreted, deterministic function field of the manager.
  - Shared vocabulary (the `Document` class, metadata values, how `str()`
    renders numbers) is in `documents.dfy`, module `Documents`.
- **Source records** (`chat_agent.dfy`, module `ChatAgent`).
  `_extract_sources` builds one record per retrieved document, with
  defaults for missing metadata. The text is Python's `str.strip()`, with
  Python's full set of whitespace characters. `strip` is characterised
  completely: the kept slice is framed by whitespace and neither starts nor
  ends with it, and every framing of that kind gives that slice.
- **Session snapshots** (`snapshot_manager.dfy`, module `Sessions`; value
  types in `sessions_values.dfy`, module `SessionValues`).
  - `SnapshotManager` is a class holding the current session id and path,
    the history and the alias dictionary. The alias dictionary keeps
    Python's insertion order, because `_get_alias_for_id` returns the
    *first* custom alias.
  - The snapshot directory is a map from path to file contents and
    modification stamp.
  - Resuming resolves aliases and replays the history into memory messages.
  - Listing filters file names, derives ids, previews and aliases, then
    sorts newest first. The sort is proved ordered and a permutation.

The id `uuid4`, the directory listing and the current time are parameters.
No I/O happens.

The model follows the code where it behaves differently from what one might
expect:
- `add_documents` does not de-duplicate ids within one batch. A text that
  occurs twice is sent twice under one id (`DuplicateSentTwice`).
- `assign_chunk_ids` mutates the chunks it is given rather than producing
  new values.
- `needs_update` compares the ids the chunks carry. When called the way
  the chat script calls it, those ids are positional while the store holds
  content hashes. See Findings.

## Model

| member | source | states |
|---|---|---|
| Documents.NatToStringInjective | document_loader.py:43 | different ordinals render as different digit strings |
| Documents.NatToStringDigits | document_loader.py:43 | the rendered ordinal is a non-empty run of decimal digits with no leading zero (except for 0 itself) |
| DocumentLoader.BasenameIsLastComponent | document_loader.py:33 | the file name is the suffix of the source path after its last '/', contains no '/', and is the whole path when there is none |
| DocumentLoader.AssignedFields | document_loader.py:33-43 | after assignment the metadata holds file = basename of source (default "unknown.pdf"), page (default -1), chunk = ordinal, id = `file:page:ordinal`; every other key is kept and none is added |
| DocumentLoader.AssignedIdsDistinct | document_loader.py:35-43 | two chunks with the same `file:page` key and different ordinals get different ids |
| DocumentLoader.AssignedIdHasColon | document_loader.py:43 | a positional id always contains ':' |
| DocumentLoader.AssignedKeepsKey | document_loader.py:33-41 | assignment keeps the chunk's file, page and counter key |
| DocumentLoader.AssignedTwice | document_loader.py:40-43 | assigning an object a second time only replaces its ordinal and id (what a repeated object in the list gets) |
| DocumentLoader.OrdinalsPerKey | document_loader.py:35-38 | for every `file:page` key the ordinals handed out are exactly 0, 1, ..., n-1 in input order |
| DocumentLoader.OrdinalsIncrease | document_loader.py:37-38 | two chunks with the same key never share an ordinal; the later one has the larger |
| DocumentLoader.OrdinalBelowCount | document_loader.py:37-38 | each ordinal is below the number of chunks with that key |
| DocumentLoader.TrackerCounts | document_loader.py:30-38 | the counter dictionary, starting empty, holds for each key how many chunks with that key were processed |
| DocumentLoader.TrackerNext | document_loader.py:37-38 | reading and bumping the counter yields the chunk's ordinal and the counters of one more chunk |
| DocumentLoader.AssignNext | document_loader.py:33-43 | one iteration: the key is `file:page`, the ordinal is the counter (default 0), the counter is bumped, the metadata becomes the assigned metadata |
| DocumentLoader.AssignAt | document_loader.py:32-43 | the loop body moves the loop invariant (counters = counts of the keys seen, entries = what the positions seen wrote) one position on |
| DocumentLoader.AssignChunkIds | document_loader.py:29-45 | returns the same list; every chunk ends with the metadata assigned with its ordinal among the chunks of its key, read from the metadata on entry; an object listed twice keeps what its last occurrence wrote |
| VectorstoreSync.UnseenMembership | vectorstore_manager.py:30-36 | a chunk is sent exactly when it is in the input and its id was not read from the store |
| VectorstoreSync.UnseenEmpty | vectorstore_manager.py:30-42 | nothing is new, and nothing is added, exactly when every chunk's id was read from the store |
| VectorstoreSync.UnseenMultiplicity | vectorstore_manager.py:30-36 | the ids sent contain each unread id as often as the input produces it and no read id |
| VectorstoreSync.DuplicateSentTwice | vectorstore_manager.py:34-36 | a text given twice to an empty store is sent twice under the same id |
| VectorstoreSync.ReadFailureSendsAll | vectorstore_manager.py:25-28 | with the empty set that a failed read leaves, every chunk is sent |
| VectorstoreSync.SyncStoresEveryId | vectorstore_manager.py:34-40 | after the sent ids join the read ids, every chunk's id is among them |
| VectorstoreSync.SecondSyncSendsNothing | vectorstore_manager.py:21-42 | syncing the same chunks again against the updated ids sends nothing |
| VectorstoreSync.VectorStore.Add | vectorstore_manager.py:40 | the store's ids become the old ids united with the ids sent, and the call is logged with its texts and ids |
| VectorstoreSync.IdSet | vectorstore_manager.py:51 | the set of the chunks' "id" values, or the `KeyError` case exactly when some chunk has no "id" |
| VectorstoreSync.StoredSuperset | vectorstore_manager.py:52 | the superset test holds exactly when every chunk id is a stored text id |
| VectorstoreSync.VectorstoreManager.constructor | vectorstore_manager.py:11-16 | the store path is the "vector_db_path" setting or "./vector_db"; no store is open |
| VectorstoreSync.VectorstoreManager.LoadVectorstore | vectorstore_manager.py:18-19 | the store persisted at the path becomes the open store |
| VectorstoreSync.VectorstoreManager.StampAndCollect | vectorstore_manager.py:30-36 | every chunk's metadata gets "id" = SHA-1 of its text, new or not; the chunks and ids collected are exactly those whose id is unread, in input order, with matching ids |
| VectorstoreSync.VectorstoreManager.AddDocuments | vectorstore_manager.py:21-42 | loads the store if none is open; stamps every chunk; when nothing is new the store is untouched; otherwise one add of exactly the new chunks and their ids, and the store's ids become the old ids plus those |
| VectorstoreSync.VectorstoreManager.NeedsUpdate | vectorstore_manager.py:44-52 | true with no open store or a failing read; otherwise `KeyError` exactly when some chunk has no "id", and true exactly when some chunk's id is not stored (so false for no chunks); reads only |
| VectorstoreSync.VectorstoreManager.PositionalIdsAlwaysNeedUpdate | vectorstore_manager.py:51-52 | chunks carrying positional ids against a store of colon-free digests always need an update |
| VectorstoreSync.VectorstoreManager.LoaderChunksAlwaysNeedUpdate | vectorstore_manager.py:44-52 | chunks fresh from `assign_chunk_ids` always need an update against a readable store of digests, however complete |
| VectorstoreSync.VectorstoreManager.NeedsUpdateByContent | vectorstore_manager.py:44-52 | corrected test: true with no open store or a failing read, otherwise true exactly when `add_documents` would send at least one chunk |
| VectorstoreSync.VectorstoreManager.SyncedStoreNeedsNoUpdate | vectorstore_manager.py:38-52 | after a sync has added what it sent, the corrected test is false for the same chunks |
| ChatAgent.TrimLeftSpec | chat_agent.py:61 | left trimming removes a whitespace prefix and stops at a non-whitespace character |
| ChatAgent.TrimRightSpec | chat_agent.py:61 | right trimming removes a whitespace suffix and stops at a non-whitespace character |
| ChatAgent.StripSpec | chat_agent.py:61 | `strip` returns a contiguous slice of the text, only whitespace around it is removed, and the slice neither starts nor ends with whitespace |
| ChatAgent.StripOfFramed | chat_agent.py:61 | any text framed by whitespace and not starting or ending with whitespace is what `strip` returns (the characterisation is complete) |
| ChatAgent.StripIdempotent | chat_agent.py:61 | stripping twice equals stripping once |
| ChatAgent.ExtractSources | chat_agent.py:53-63 | one record per document in the same order; file defaults to "unknown", page and chunk to -1, text is the stripped page content |
| ChatAgent.RecordOfAssignedChunk | chat_agent.py:58-60 | a chunk that went through id assignment is reported with its file, page and ordinal, never a default |
| SessionValues.ReplayAt | snapshot_manager.py:58-62 | the rebuilt memory has two messages per turn: message 2i is the i-th question, 2i+1 the i-th answer |
| SessionValues.ReplaySnoc | snapshot_manager.py:100-105 | recording one turn extends the replayed memory by exactly its question and answer |
| SessionValues.PutSpec | snapshot_manager.py:36-38 | a dictionary write keeps the table well formed and changes the written key only |
| SessionValues.FirstNamingSpec | snapshot_manager.py:95-98 | the scan returns a custom alias with none before it, or the id when no key is one |
| SessionValues.AliasForSpec | snapshot_manager.py:93-98 | `_get_alias_for_id` returns the first key in dict order, other than the id, mapping to the id; the id itself exactly when there is none |
| SessionValues.AliasResolvesBack | snapshot_manager.py:93-98 | the alias shown for a session resolves back to it, when the session's own key maps to itself |
| SessionValues.RegisteredSpec | snapshot_manager.py:36-38 | for a fresh id: it resolves to itself, a given non-empty alias resolves to it and is the alias listed for it, and every other key is unchanged |
| SessionValues.JoinInjective | snapshot_manager.py:33 | joining one directory with different relative names gives different paths |
| Sessions.SnapshotManager.SessionPathsDistinct | snapshot_manager.py:33 | distinct session ids that are not absolute paths get distinct snapshot files |
| SessionValues.RemoveJsonKeepsPlain | snapshot_manager.py:75 | `replace(".json", "")` keeps a text without ".json" unchanged |
| SessionValues.RemoveJsonOfSnapshotName | snapshot_manager.py:75 | the id read off `id + ".json"` is `id`, for ids not containing ".json" |
| SessionValues.LexLessIrreflexive | snapshot_manager.py:91 | no timestamp sorts before itself |
| SessionValues.LexLessTransitive | snapshot_manager.py:91 | string order is transitive |
| SessionValues.LexLessTotal | snapshot_manager.py:91 | of two different timestamps one sorts before the other |
| SessionValues.SortNewestFirstSpec | snapshot_manager.py:91 | the sorted list is newest first and a permutation of the entries |
| SessionValues.NewestIsFirst | snapshot_manager.py:65-69 | the first sorted entry is an entry whose timestamp no other entry exceeds |
| Sessions.SnapshotManager.constructor | snapshot_manager.py:11-24 | the directory is the one given or "./snapshots"; no session, empty history, alias file path `dir/aliases.json`, aliases from the alias file or empty |
| Sessions.SnapshotManager.SaveAliases | snapshot_manager.py:26-28 | the alias file holds the current table |
| Sessions.SnapshotManager.StartNewSession | snapshot_manager.py:31-40 | returns the fresh id, which is the current session; path `dir/id.json`; empty history; id maps to itself, a non-empty alias maps to it; table saved; snapshots untouched |
| Sessions.SnapshotManager.ResumeSession | snapshot_manager.py:42-62 | the resolved id and its path become current even if the file is missing; a readable file becomes the history and the memory replays it; otherwise no memory and the history is unchanged |
| Sessions.SnapshotManager.EntriesSpec | snapshot_manager.py:74 | an entry is listed exactly for a listed name ending in ".json" other than "aliases.json" |
| Sessions.SnapshotManager.SavedSessionListed | snapshot_manager.py:74-82 | a saved snapshot is listed under the id it was saved with and previews its first question |
| Sessions.SnapshotManager.GetAliasForId | snapshot_manager.py:93-98 | the loop returns the first custom alias in dict order, or the id; any alias it returns maps to the id |
| Sessions.SnapshotManager.ListSessions | snapshot_manager.py:71-91 | the entries of the snapshot names, sorted newest first: ordered, and a permutation of the entries |
| Sessions.SnapshotManager.ResumeLatest | snapshot_manager.py:64-69 | no entries: nothing changes and no memory; otherwise the newest listed session is resumed |
| Sessions.SnapshotManager.RecordTurn | snapshot_manager.py:100-105 | exactly one turn is appended; earlier turns are unchanged |
| Sessions.SnapshotManager.SaveSnapshot | snapshot_manager.py:107-112 | without a path (None or ""), the path of the current id is used ("None.json" with no id); the history is written there and loading that path gives it back |

## Left out

- Chroma, HuggingFace embeddings, LangChain chains and the LLM are foreign
  libraries. The store is reduced to its id set, a read-failure flag and a
  log of add calls; embeddings and similarity search are not modelled.
- A store that rejects duplicate ids inside one add call is not modelled.
  `Add` accepts any batch.
- `compute_sha1` lives in a utility module that is not part of this model.
  It is a deterministic function parameter; SHA-1 itself is not modelled.
- `delete_vectorstore` is filesystem removal only.
- `split_documents`, the text splitter and `PDFDirectoryLoader.load` are
  library calls.
- `_create_chain`, `ask` and `get_llm.py` are LLM chain construction and
  calls.
- `run_chat.py`, `main.py` and `run_vectorstore_update.py` are console
  scripts.
- Progress bars, `print` output and the temperature setting have no
  effect on state.
- `SnapshotManager`: JSON encoding, `os.makedirs`, `os.path.exists`,
  `getmtime` and `datetime` formatting are replaced by the file map and a
  time-stamp parameter. `uuid4` and `os.listdir` are parameters.
- The alias file is kept apart from the snapshot map, so resuming a session
  named "aliases" does not read the alias dictionary as a history.
- A snapshot file that parses as something other than a list of turns is
  treated like an unreadable one.
- Sessions.SnapshotManager.constructor requires a well-formed alias table
  on disk (one key per entry). A malformed alias file, on which the source
  raises, is not modelled.
- DocumentLoader.AssignChunkIds requires every "source" entry to be text.
  `os.path.basename` raises `TypeError` otherwise, and that exception path
  is not modelled.
- Sessions.SnapshotManager.ListSessions requires every listed snapshot name
  to have a file, as a directory listing guarantees. Stability of the sort
  among equal timestamps is not stated, though the insertion order of the
  model keeps it.
- DocumentLoader.AssignChunkIds and VectorstoreSync.VectorstoreManager.AddDocuments
  assume that distinct `Document` objects hold distinct metadata
  dictionaries, as the text splitter guarantees by copying metadata per
  chunk. Two objects sharing one dictionary, where a later write would also
  show in the earlier chunk, are not modelled.
- DocumentLoader.Basename and SessionValues.Join: only POSIX paths with the
  '/' separator are modelled. Windows separators ('\\') and drive letters
  are not.
- Metadata values other than text and integers do not occur in the
  pipeline and are not modelled.

## Findings

| source | as written | input that shows it | evidently intended | confidence | as-written member | corrected member |
|---|---|---|---|---|---|---|
| vectorstore_manager.py:51-52 | `needs_update` compares the ids the chunks carry. As run_chat.py:26 calls it, those are the positional `file:page:idx` ids of document_loader.py:43, while `add_documents` stores SHA-1 hex digests (vectorstore_manager.py:32-33), which never contain ':' | a store already holding the hash of every chunk; chunks fresh from the loader, e.g. one with id "a.pdf:0:0"; the answer is true on every run | compare the content hash each chunk would be stored under, so a synced store needs no update | medium; not executed | VectorstoreSync.VectorstoreManager.PositionalIdsAlwaysNeedUpdate | VectorstoreSync.VectorstoreManager.NeedsUpdateByContent |
