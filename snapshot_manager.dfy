/** The session snapshot manager (`SnapshotManager`): the current session, its
    history, the alias dictionary and the snapshot files of one directory.
    The directory is a map from path to stored file; the alias file is kept
    apart as the table last written to it. */
module Sessions {
  import opened Documents
  import opened SessionValues
  import ChatAgent

  /** What `json.load` makes of a snapshot file: a list of turns, or an
      exception. */
  datatype Content = Turns(turns: seq<Turn>) | Unparsable

  /** A snapshot file: its contents and its modification time as
      `strftime("%Y-%m-%d %H:%M")` renders it. */
  datatype StoredFile = StoredFile(content: Content, modified: string)

  /** One entry of `list_sessions`. */
  datatype SessionInfo = SessionInfo(id: string, alias: string, timestamp: string, firstMsg: string)

  function Timestamp(s: SessionInfo): string {
    s.timestamp
  }

  /** The preview `list_sessions` shows: the first question, "" for an empty
      history, and a fixed marker when the file cannot be read. */
  function FirstMessage(c: Content): string {
    match c
    case Unparsable => "(corrupt or empty)"
    case Turns(t) => if t == [] then "" else t[0].question
  }

  class SnapshotManager {
    const snapshotDir: string
    const aliasFile: string
    var sessionId: Option<string>
    var sessionPath: Option<string>
    var history: seq<Turn>
    var aliases: AliasTable
    /** The table last written to the alias file, if it exists. */
    var savedAliases: Option<AliasTable>
    /** The snapshot files, by path. */
    var files: map<string, StoredFile>

    ghost predicate Valid()
      reads this
    {
      aliases.Valid()
    }

    /** `__init__`: the directory defaults to "./snapshots"; no session yet,
        and the aliases are those of the alias file, or none when it does not
        exist. */
    constructor (snapshotDir: Option<string>, savedAliases: Option<AliasTable>, files: map<string, StoredFile>)
      requires savedAliases.Some? ==> savedAliases.value.Valid()
      ensures this.snapshotDir == snapshotDir.GetOr("./snapshots")
      ensures aliasFile == Join(this.snapshotDir, "aliases.json")
      ensures sessionId == None && sessionPath == None && history == []
      ensures aliases == savedAliases.GetOr(AliasTable([], map[]))
      ensures this.savedAliases == savedAliases && this.files == files
      ensures Valid()
    {
      var dir := snapshotDir.GetOr("./snapshots");
      this.snapshotDir := dir;
      aliasFile := Join(dir, "aliases.json");
      sessionId := None;
      sessionPath := None;
      history := [];
      aliases := savedAliases.GetOr(AliasTable([], map[]));
      this.savedAliases := savedAliases;
      this.files := files;
    }

    /** The snapshot path of a session id. */
    function SessionPath(sid: string): string {
      Join(snapshotDir, sid + ".json")
    }

    /** Distinct session ids that are not absolute paths have distinct
        snapshot files. */
    lemma SessionPathsDistinct(sid1: string, sid2: string)
      requires sid1 == [] || sid1[0] != '/'
      requires sid2 == [] || sid2[0] != '/'
      ensures sid1 != sid2 ==> SessionPath(sid1) != SessionPath(sid2)
    {
      var n1, n2 := sid1 + ".json", sid2 + ".json";
      assert n1[0] != '/' && n2[0] != '/';
      JoinInjective(snapshotDir, n1, n2);
      if n1 == n2 {
        assert sid1 == n1[..|n1| - 5] && sid2 == n2[..|n2| - 5];
      }
    }

    /** The history stored at `path`, if the file exists and parses. */
    function Load(path: string): Option<seq<Turn>>
      reads this`files
    {
      if path in files && files[path].content.Turns? then Some(files[path].content.turns) else None
    }

    /** `_save_aliases` */
    method SaveAliases()
      modifies this`savedAliases
      ensures savedAliases == Some(aliases)
    {
      savedAliases := Some(aliases);
    }

    /** `start_new_session`: a fresh id (`uuid4` is a parameter) becomes the
        current session with an empty history; it maps to itself in the
        alias table, a non-empty alias maps to it, and the table is saved. */
    method StartNewSession(freshId: string, alias: Option<string>) returns (id: string)
      requires Valid()
      modifies this
      ensures Valid()
      ensures id == freshId && sessionId == Some(freshId) && sessionPath == Some(SessionPath(freshId))
      ensures history == []
      ensures aliases == Registered(old(aliases), freshId, alias) && savedAliases == Some(aliases)
      ensures files == old(files)
    {
      sessionId := Some(freshId);
      sessionPath := Some(SessionPath(freshId));
      history := [];
      PutSpec(aliases, freshId, freshId);
      aliases := aliases.Put(freshId, freshId);
      if alias.Some? && alias.value != "" {
        PutSpec(aliases, alias.value, freshId);
        aliases := aliases.Put(alias.value, freshId);
      }
      SaveAliases();
      id := freshId;
    }

    /** `resume_session`: the identifier is resolved through the alias table
        and becomes the current session whether or not its file exists; a
        file that exists and parses becomes the history, and the memory
        replays it. A missing or unreadable file leaves the history as it
        was and gives no memory. */
    method ResumeSession(identifier: string) returns (memory: Option<seq<Message>>)
      modifies this`sessionId, this`sessionPath, this`history
      ensures var sid := aliases.Resolve(identifier);
              sessionId == Some(sid) && sessionPath == Some(SessionPath(sid))
      ensures var loaded := Load(sessionPath.value);
              && (loaded.None? ==> memory.None? && history == old(history))
              && (loaded.Some? ==> history == loaded.value && memory == Some(Replay(history)))
    {
      var sid := aliases.Resolve(identifier);
      sessionId := Some(sid);
      var path := SessionPath(sid);
      sessionPath := Some(path);
      if path !in files {
        return None;
      }
      match files[path].content {
        case Unparsable =>
          return None;
        case Turns(t) =>
          history := t;
      }
      var messages := [];
      for i := 0 to |history|
        invariant messages == Replay(history[..i])
      {
        assert history[..i + 1][..i] == history[..i];
        messages := messages + [Human(history[i].question), Ai(history[i].answer)];
      }
      assert history[..|history|] == history;
      memory := Some(messages);
    }

    /** Every listed snapshot name has a file (`os.listdir` only lists
        existing entries). */
    ghost predicate ListingReadable(listing: seq<string>)
      reads this`files
    {
      forall i :: 0 <= i < |listing| && IsSnapshotName(listing[i]) ==> Join(snapshotDir, listing[i]) in files
    }

    /** The entry `list_sessions` builds for a snapshot file name. */
    function EntryOf(name: string): SessionInfo
      requires Join(snapshotDir, name) in files
      reads this`files, this`aliases
    {
      var sid := RemoveJson(name);
      var f := files[Join(snapshotDir, name)];
      SessionInfo(sid, aliases.AliasFor(sid), f.modified, FirstMessage(f.content))
    }

    /** The entries of the snapshot names of a listing, in listing order. */
    function Entries(listing: seq<string>): seq<SessionInfo>
      requires ListingReadable(listing)
      reads this`files, this`aliases
    {
      if listing == [] then []
      else
        var name := listing[|listing| - 1];
        Entries(listing[..|listing| - 1]) + if IsSnapshotName(name) then [EntryOf(name)] else []
    }

    /** Exactly the names ending in ".json", other than "aliases.json", give
        an entry. */
    lemma {:induction false} EntriesSpec(listing: seq<string>, e: SessionInfo)
      requires ListingReadable(listing)
      ensures e in Entries(listing) <==>
                exists i :: 0 <= i < |listing| && IsSnapshotName(listing[i]) && e == EntryOf(listing[i])
    {
      if listing != [] {
        var p := listing[..|listing| - 1];
        assert ListingReadable(p);
        EntriesSpec(p, e);
        if e in Entries(p) {
          var i :| 0 <= i < |p| && IsSnapshotName(p[i]) && e == EntryOf(p[i]);
          assert listing[i] == p[i];
        }
        if exists i :: 0 <= i < |listing| && IsSnapshotName(listing[i]) && e == EntryOf(listing[i]) {
          var i :| 0 <= i < |listing| && IsSnapshotName(listing[i]) && e == EntryOf(listing[i]);
          if i < |p| {
            assert p[i] == listing[i];
          }
        }
      }
    }

    /** A snapshot saved under a session id is listed under that id (for
        ids without ".json" in them), with the first question of its history
        as preview. */
    lemma SavedSessionListed(listing: seq<string>, sid: string)
      requires ListingReadable(listing)
      requires (sid + ".json") in listing && sid != "aliases"
      requires forall i :: !HasJsonAt(sid, i)
      ensures exists e :: e in Entries(listing) && e.id == sid
                && e.firstMsg == FirstMessage(files[Join(snapshotDir, sid + ".json")].content)
    {
      var name := sid + ".json";
      var i :| 0 <= i < |listing| && listing[i] == name;
      assert name[|name| - 5..] == ".json";
      RemoveJsonOfSnapshotName(sid);
      EntriesSpec(listing, EntryOf(name));
    }

    /** `_get_alias_for_id`: scan the alias table in dict order for a custom
        alias of `sid`. */
    method GetAliasForId(sid: string) returns (alias: string)
      requires Valid()
      ensures alias == aliases.AliasFor(sid)
      ensures alias != sid ==> aliases.Names(alias, sid)
    {
      var keys := aliases.order;
      for i := 0 to |keys|
        invariant aliases.FirstNaming(keys[i..], sid) == aliases.AliasFor(sid)
      {
        assert keys[i..][1..] == keys[i + 1..];
        var key := keys[i];
        if key in aliases.entries && aliases.entries[key] == sid && key != sid {
          return key;
        }
      }
      return sid;
    }

    /** `list_sessions`: one entry per snapshot name of the listing
        (`os.listdir` is a parameter), newest first. */
    method ListSessions(listing: seq<string>) returns (sessions: seq<SessionInfo>)
      requires Valid() && ListingReadable(listing)
      ensures sessions == SortNewestFirst(Timestamp, Entries(listing))
      ensures NewestFirst(Timestamp, sessions) && multiset(sessions) == multiset(Entries(listing))
    {
      var entries := [];
      for i := 0 to |listing|
        invariant ListingReadable(listing[..i])
        invariant entries == Entries(listing[..i])
      {
        var name := listing[i];
        assert listing[..i + 1][..i] == listing[..i];
        if IsSnapshotName(name) {
          var sid := RemoveJson(name);
          var f := files[Join(snapshotDir, name)];
          var firstMsg := FirstMessage(f.content);
          var alias := GetAliasForId(sid);
          entries := entries + [SessionInfo(sid, alias, f.modified, firstMsg)];
        }
      }
      assert listing[..|listing|] == listing;
      sessions := SortNewestFirst(Timestamp, entries);
      SortNewestFirstSpec(Timestamp, entries);
    }

    /** `resume_latest`: nothing happens without sessions; otherwise the first
        session of the list (one with the latest timestamp) is resumed. */
    method ResumeLatest(listing: seq<string>) returns (memory: Option<seq<Message>>)
      requires Valid() && ListingReadable(listing)
      modifies this`sessionId, this`sessionPath, this`history
      ensures Entries(listing) == [] ==>
                memory.None? && sessionId == old(sessionId) && sessionPath == old(sessionPath) && history == old(history)
      ensures Entries(listing) != [] ==>
                var newest := SortNewestFirst(Timestamp, Entries(listing))[0];
                var sid := aliases.Resolve(newest.id);
                var loaded := Load(SessionPath(sid));
                && sessionId == Some(sid) && sessionPath == Some(SessionPath(sid))
                && (loaded.None? ==> memory.None? && history == old(history))
                && (loaded.Some? ==> history == loaded.value && memory == Some(Replay(history)))
    {
      var sessions := ListSessions(listing);
      if |sessions| == 0 {
        return None;
      }
      memory := ResumeSession(sessions[0].id);
    }

    /** `record_turn`: one entry is appended to the history. */
    method RecordTurn(question: string, answer: string, sources: seq<ChatAgent.SourceRecord>)
      modifies this`history
      ensures history == old(history) + [Turn(question, answer, sources)]
    {
      history := history + [Turn(question, answer, sources)];
    }

    /** `save_snapshot`: without a session path (None or empty) the path of
        the current id is used, "None.json" when there is no id; the history
        is written there, so loading that path gives it back. */
    method SaveSnapshot(now: string)
      modifies this`sessionPath, this`files
      ensures var path := if old(sessionPath).None? || old(sessionPath).value == "" then SessionPath(IdText(sessionId))
                          else old(sessionPath).value;
              sessionPath == Some(path) && files == old(files)[path := StoredFile(Turns(history), now)]
      ensures Load(sessionPath.value) == Some(history)
    {
      if sessionPath.None? || sessionPath.value == "" {
        sessionPath := Some(SessionPath(IdText(sessionId)));
      }
      files := files[sessionPath.value := StoredFile(Turns(history), now)];
    }
  }
}
