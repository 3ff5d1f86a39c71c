/**
 * The Cache object (src/Cache.cc): its mount flag, the account directory it
 * derived, whether the environment's directory exists, and the tables of
 * the environment. Every engine call of setState is named by a StoreOp, and
 * the caller says which of them fail; removeRoom takes one failure flag and
 * setup the outcomes of its opens and filesystem calls. setState writes into a working
 * copy of the tables that becomes the cache's only at commit, so a failure
 * anywhere leaves no partial batch behind.
 */
module RoomCache {
  import opened Wrappers
  import opened CacheStore
  import CachePaths

  /** The engine's error codes, as far as setup tells them apart (src/Cache.cc:69). */
  datatype EngineCode = VersionMismatch | Invalid | OtherCode

  /** How the engine answers an attempt to open the environment. */
  datatype OpenResult = Opened | OpenFailed(code: EngineCode)

  /** The exceptions setup raises. */
  datatype SetupError =
    | CannotCreateStateDirectory(path: string)
    | InitializationFailed(code: EngineCode)
    | CannotDeleteFile
    | ReopenFailed(code: EngineCode)

  /** An error raised by the engine during a transaction that the caller sees. */
  datatype EngineError = EngineFault

  /** An incompatible or unreadable environment is wiped and opened again. */
  predicate Recoverable(code: EngineCode) {
    code == VersionMismatch || code == Invalid
  }

  // ---------------------------------------------------------------------------
  // The listing setup wipes (src/Cache.cc:76-82)
  // ---------------------------------------------------------------------------

  /** What a directory entry is: a regular file, a directory, or a special entry (a FIFO, socket or device). */
  datatype EntryKind = RegularFile | Directory | Special

  /** An entry of a directory: its name and its kind. */
  datatype DirEntry = DirEntry(name: string, kind: EntryKind)

  /** The QDir filter flags the listing depends on: Files, Dirs, System, Hidden and NoDotAndDotDot. */
  datatype EntryFilter = EntryFilter(files: bool, dirs: bool, system: bool, hidden: bool, noDotAndDotDot: bool)

  predicate IsDotOrDotDot(name: string) {
    name == "." || name == ".."
  }

  /** A hidden name on Unix: one that starts with `.`, other than `.` and `..`. */
  predicate IsHiddenName(name: string) {
    |name| > 0 && name[0] == '.' && !IsDotOrDotDot(name)
  }

  /**
   * Whether QDir's filter rules admit an entry: a regular file only with
   * Files, a directory only with Dirs, a special entry only with System;
   * `.` and `..` never with NoDotAndDotDot; a hidden name only with Hidden.
   */
  predicate Admits(f: EntryFilter, e: DirEntry) {
    && (match e.kind
        case RegularFile => f.files
        case Directory => f.dirs
        case Special => f.system)
    && !(f.noDotAndDotDot && IsDotOrDotDot(e.name))
    && (f.hidden || !IsHiddenName(e.name))
  }

  /**
   * QDir::entryList: the names of the entries the filter admits, in order.
   * Every listed name is that of an admitted entry, and every admitted
   * entry is listed.
   */
  function EntryList(entries: seq<DirEntry>, f: EntryFilter): (names: seq<string>)
    ensures |names| <= |entries|
    ensures forall n :: n in names ==> exists e :: e in entries && e.name == n && Admits(f, e)
    ensures forall e :: e in entries && Admits(f, e) ==> e.name in names
  {
    if entries == [] then []
    else
      assert entries == [entries[0]] + entries[1..];
      (if Admits(f, entries[0]) then [entries[0].name] else []) + EntryList(entries[1..], f)
  }

  /** The filter setup passes: QDir::NoDotAndDotDot alone, with no entry type. */
  const AsWrittenFilter := EntryFilter(false, false, false, false, true)

  /** The filter the wipe needs: QDir::Files | QDir::NoDotAndDotDot. */
  const IntendedFilter := EntryFilter(true, false, false, false, true)

  /** A regular file of the directory with a name that is not hidden is called x. */
  predicate HasVisibleFile(entries: seq<DirEntry>, x: string) {
    exists e :: e in entries && e.name == x && e.kind == RegularFile && !IsDotOrDotDot(x) && !IsHiddenName(x)
  }

  /** With no entry type in the filter, the listing is empty, so the loop deletes nothing. */
  lemma {:induction false} AsWrittenListsNothing(entries: seq<DirEntry>)
    ensures EntryList(entries, AsWrittenFilter) == []
    decreases |entries|
  {
    if entries != [] {
      AsWrittenListsNothing(entries[1..]);
    }
  }

  /** The intended listing names exactly the regular files of the directory whose names are not hidden. */
  lemma IntendedListsEveryFile(entries: seq<DirEntry>, x: string)
    ensures x in EntryList(entries, IntendedFilter) <==> HasVisibleFile(entries, x)
  {
  }

  /**
   * The environment's two files, `data.mdb` and `lock.mdb`: the listing as
   * written names neither, so both survive the wipe and the retried open
   * meets the same incompatible environment. The intended listing names both.
   */
  lemma WipeListingCounterexample()
    ensures var dir := [DirEntry("data.mdb", RegularFile), DirEntry("lock.mdb", RegularFile)];
            && EntryList(dir, AsWrittenFilter) == []
            && "data.mdb" in EntryList(dir, IntendedFilter)
            && "lock.mdb" in EntryList(dir, IntendedFilter)
  {
    var dir := [DirEntry("data.mdb", RegularFile), DirEntry("lock.mdb", RegularFile)];
    AsWrittenListsNothing(dir);
    IntendedListsEveryFile(dir, "data.mdb");
    IntendedListsEveryFile(dir, "lock.mdb");
    assert dir[0].name == "data.mdb" && dir[1].name == "lock.mdb";
    assert dir[0] in dir && dir[1] in dir;
    assert !IsDotOrDotDot("data.mdb") && !IsHiddenName("data.mdb");
    assert !IsDotOrDotDot("lock.mdb") && !IsHiddenName("lock.mdb");
  }

  /** The engine calls one setState makes, each of which can fail. */
  datatype StoreOp =
    | BeginTxn
    | WriteToken
    | PutRoom(room: RoomId)
    | OpenMemberTable(room: RoomId, index: nat)
    | WriteMember(room: RoomId, index: nat)
    | CommitTxn

  /** No call insertRoomState(id, _) makes for the member events ms fails. */
  predicate MemberOpsSucceed(id: RoomId, ms: seq<MemberEvent>, failing: set<StoreOp>) {
    forall j :: 0 <= j < |ms| ==>
      OpenMemberTable(id, j) !in failing && (ms[j].membership != Knock ==> WriteMember(id, j) !in failing)
  }

  /** No call insertRoomState(id, st) makes fails. */
  predicate RoomOpsSucceed(id: RoomId, st: RoomState, failing: set<StoreOp>) {
    PutRoom(id) !in failing && MemberOpsSucceed(id, st.memberships, failing)
  }

  /** No call setState(_, batch) makes fails. */
  predicate BatchOpsSucceed(batch: map<RoomId, RoomState>, failing: set<StoreOp>) {
    && BeginTxn !in failing && WriteToken !in failing && CommitTxn !in failing
    && forall id :: id in batch ==> RoomOpsSucceed(id, batch[id], failing)
  }

  class Cache {
    const userId: string
    var mounted: bool
    var cacheDirectory: string
    /** Whether the environment's directory, `<cacheDirectory>/state`, exists. */
    var stateDirExists: bool
    var meta: map<string, string>
    var rooms: map<RoomId, Stored<RoomAttrs>>
    var members: map<RoomId, MemberTable>

    /** The tables of the environment: the open one while mounted, otherwise the one in the state directory. */
    function Tables(): Store
      reads this
    {
      Store(meta, rooms, members)
    }

    ghost predicate Valid()
      reads this
    {
      && (mounted ==> cacheDirectory != "")
      && (!mounted && !stateDirExists ==> Tables() == EmptyStore)
    }

    /**
     * A cache for one account, not mounted (src/Cache.cc:30-36). `onDisk` is
     * the environment earlier runs left in that account's state directory,
     * if the directory exists.
     */
    constructor (userId: string, onDisk: Option<Store>)
      ensures Valid()
      ensures this.userId == userId && !mounted && cacheDirectory == ""
      ensures stateDirExists == onDisk.Some?
      ensures Tables() == if onDisk.Some? then onDisk.value else EmptyStore
    {
      this.userId := userId;
      mounted := false;
      cacheDirectory := "";
      stateDirExists := onDisk.Some?;
      var tables := if onDisk.Some? then onDisk.value else EmptyStore;
      meta, rooms, members := tables.meta, tables.rooms, tables.members;
    }

    /**
     * setup (src/Cache.cc:38-94). The outcomes of the filesystem and engine
     * calls are parameters: whether creating the state directory succeeds,
     * how the first open goes, whether deleting the old files succeeds, and
     * how the one retry goes. The wipe deletes every regular file of the
     * state directory whose name is not hidden, as the intended listing
     * IntendedFilter names them.
     */
    method Setup(cacheRoot: string, mkpathSucceeds: bool, firstOpen: OpenResult,
                 wipeSucceeds: bool, reopen: OpenResult)
      returns (r: Outcome<SetupError>)
      requires Valid() && !mounted
      modifies this
      ensures Valid()
      ensures cacheDirectory == CachePaths.CacheDirectory(cacheRoot, userId)
      ensures r.Pass? <==> mounted
      // A missing state directory is created, and holds a fresh environment.
      ensures !old(stateDirExists) && !mkpathSucceeds ==>
                r == Fail(CannotCreateStateDirectory(CachePaths.StatePath(cacheRoot, userId)))
                && !stateDirExists && Tables() == EmptyStore
      ensures old(stateDirExists) || mkpathSucceeds ==> stateDirExists
      ensures !old(stateDirExists) && mkpathSucceeds ==> Tables() == EmptyStore
      // The open, and the policy when it fails.
      ensures old(stateDirExists) || mkpathSucceeds ==>
                match firstOpen
                case Opened =>
                  r == Pass && Tables() == (if old(stateDirExists) then old(Tables()) else EmptyStore)
                case OpenFailed(code) =>
                  if !Recoverable(code) then
                    r == Fail(InitializationFailed(code)) && Tables() == (if old(stateDirExists) then old(Tables()) else EmptyStore)
                  else if !wipeSucceeds then
                    r == Fail(CannotDeleteFile) && Tables() == (if old(stateDirExists) then old(Tables()) else EmptyStore)
                  else
                    Tables() == EmptyStore && r == (if reopen.Opened? then Pass else Fail(ReopenFailed(reopen.code)))
    {
      var statePath := CachePaths.StatePath(cacheRoot, userId);
      cacheDirectory := CachePaths.CacheDirectory(cacheRoot, userId);
      var isInitial := !stateDirExists;
      if isInitial {
        if !mkpathSucceeds {
          return Fail(CannotCreateStateDirectory(statePath));
        }
        stateDirExists := true;
        meta, rooms, members := map[], map[], map[];
      }
      if firstOpen.OpenFailed? {
        if !Recoverable(firstOpen.code) {
          return Fail(InitializationFailed(firstOpen.code));
        }
        // Every file of the state directory is deleted, then the open is retried once.
        if !wipeSucceeds {
          return Fail(CannotDeleteFile);
        }
        meta, rooms, members := map[], map[], map[];
        if reopen.OpenFailed? {
          return Fail(ReopenFailed(reopen.code));
        }
      }
      // The meta ("state") and "rooms" tables are created if absent; in this model they always exist.
      mounted := true;
      return Pass;
    }

    /**
     * unmount (its body is not part of this model): the environment is
     * closed and the cache is no longer mounted. Once closed, an environment
     * whose state directory was deleted while it was open is gone.
     */
    method Unmount()
      requires Valid()
      modifies this
      ensures Valid() && !mounted
      ensures cacheDirectory == old(cacheDirectory) && stateDirExists == old(stateDirExists)
      ensures Tables() == if stateDirExists then old(Tables()) else EmptyStore
    {
      mounted := false;
      if !stateDirExists {
        meta, rooms, members := map[], map[], map[];
      }
    }

    /**
     * deleteData (src/Cache.cc:265-272): removes the account directory, if
     * setup has derived one. An environment still open keeps its contents
     * until it is closed; a closed one is gone.
     */
    method DeleteData()
      requires Valid()
      modifies this
      ensures Valid()
      ensures mounted == old(mounted) && cacheDirectory == old(cacheDirectory)
      ensures old(cacheDirectory) == "" ==> unchanged(this)
      ensures old(cacheDirectory) != "" ==> !stateDirExists
      ensures old(cacheDirectory) != "" ==> Tables() == if mounted then old(Tables()) else EmptyStore
    {
      if cacheDirectory != "" {
        stateDirExists := false;
        if !mounted {
          meta, rooms, members := map[], map[], map[];
        }
      }
    }

    /**
     * The loop of insertRoomState over the room's member events
     * (src/Cache.cc:127-159): each event opens the room's membership table
     * (creating it on first use) and applies the transition rule.
     */
    method WriteMemberEvents(table0: MemberTable, id: RoomId, ms: seq<MemberEvent>, failing: set<StoreOp>)
      returns (ok: bool, table: MemberTable)
      ensures ok <==> MemberOpsSucceed(id, ms, failing)
      ensures ok ==> table == ApplyMemberships(table0, ms)
    {
      ok, table := false, table0;
      var i := 0;
      while i < |ms|
        invariant 0 <= i <= |ms|
        invariant table == ApplyMemberships(table0, ms[..i])
        invariant MemberOpsSucceed(id, ms[..i], failing)
      {
        if OpenMemberTable(id, i) in failing {
          return;
        }
        var e := ms[i];
        match e.membership {
          case Invite | Join =>
            if WriteMember(id, i) in failing {
              return;
            }
            table := table[e.stateKey := Encoded(e)];
          case Leave | Ban =>
            if WriteMember(id, i) in failing {
              return;
            }
            table := table - {e.stateKey};
          case Knock =>
            // Skipped with a warning: nothing is written or removed.
        }
        assert ms[..i + 1][..i] == ms[..i];
        i := i + 1;
      }
      assert ms[..|ms|] == ms;
      ok := true;
    }

    /**
     * insertRoomState (src/Cache.cc:119-160) inside the transaction `txn`:
     * the room record, then the room's member events. Succeeds exactly when
     * none of the calls it makes fails, and then yields the tables with the
     * room inserted.
     */
    method InsertRoomState(txn: Store, id: RoomId, st: RoomState, failing: set<StoreOp>)
      returns (ok: bool, next: Store)
      ensures ok <==> RoomOpsSucceed(id, st, failing)
      ensures ok ==> next == WithRoomState(txn, id, st)
    {
      ok, next := false, txn;
      if PutRoom(id) in failing {
        return;
      }
      next := next.(rooms := next.rooms[id := Encoded(st.attrs)]);
      if |st.memberships| > 0 {
        var table;
        ok, table := WriteMemberEvents(TableOf(txn.members, id), id, st.memberships, failing);
        if !ok {
          return;
        }
        next := next.(members := next.members[id := table]);
      }
      ok := true;
    }

    /** The error path of setState (src/Cache.cc:111-116): unmount, then delete the data. */
    method Abandon()
      requires Valid() && mounted
      modifies this
      ensures Valid() && !mounted && !stateDirExists && Tables() == EmptyStore
      ensures cacheDirectory == old(cacheDirectory)
    {
      Unmount();
      DeleteData();
    }

    /**
     * The loop of setState over the rooms of the batch (src/Cache.cc:107-108):
     * each room is inserted into the transaction in turn. It gets through
     * exactly when none of the calls it makes fails, and then the
     * transaction holds every room of the batch.
     */
    method WriteBatch(base: Store, batch: map<RoomId, RoomState>, failing: set<StoreOp>)
      returns (ok: bool, txn: Store)
      ensures ok <==> forall id :: id in batch ==> RoomOpsSucceed(id, batch[id], failing)
      ensures ok ==> txn == WriteRooms(base, batch, batch.Keys)
    {
      ok, txn := false, base;
      var done: set<RoomId> := {};
      var remaining := batch.Keys;
      WriteNoRooms(base, batch);
      while remaining != {}
        invariant done <= batch.Keys && remaining == batch.Keys - done
        invariant txn == WriteRooms(base, batch, done)
        invariant forall id :: id in done ==> RoomOpsSucceed(id, batch[id], failing)
        decreases remaining
      {
        var id :| id in remaining;
        var roomOk, next := InsertRoomState(txn, id, batch[id], failing);
        if !roomOk {
          return;
        }
        WriteOneMoreRoom(base, batch, done, id);
        txn := next;
        done := done + {id};
        remaining := remaining - {id};
      }
      assert done == batch.Keys;
      ok := true;
    }

    /**
     * setState (src/Cache.cc:96-117): a no-op while unmounted. Otherwise one
     * transaction writes the token and every room of the batch and is
     * committed last; if any engine call fails, the cache unmounts and
     * deletes its data, so the tables hold either the whole batch or
     * nothing at all.
     */
    method SetState(token: string, batch: map<RoomId, RoomState>, failing: set<StoreOp>)
      returns (committed: bool)
      requires Valid()
      modifies this
      ensures Valid()
      ensures committed <==> old(mounted) && BatchOpsSucceed(batch, failing)
      ensures !old(mounted) ==> unchanged(this)
      ensures committed ==> mounted && stateDirExists == old(stateDirExists)
                            && Tables() == ApplyBatch(old(Tables()), token, batch)
      ensures old(mounted) && !committed ==> !mounted && !stateDirExists && Tables() == EmptyStore
      ensures cacheDirectory == old(cacheDirectory)
    {
      committed := false;
      if !mounted {
        return;
      }
      if BeginTxn in failing || WriteToken in failing {
        Abandon();
        return;
      }
      var ok, txn := WriteBatch(PutToken(Tables(), token), batch, failing);
      if !ok || CommitTxn in failing {
        Abandon();
        return;
      }
      meta, rooms, members := txn.meta, txn.rooms, txn.members;
      committed := true;
    }

    /**
     * removeRoom (src/Cache.cc:162-173): a no-op while unmounted; otherwise
     * deletes the room's record in its own transaction. An engine error
     * propagates to the caller and the transaction is abandoned.
     */
    method RemoveRoom(id: RoomId, fails: bool) returns (r: Outcome<EngineError>)
      requires Valid()
      modifies this
      ensures Valid()
      ensures r.Fail? <==> old(mounted) && fails
      ensures !old(mounted) || fails ==> unchanged(this)
      ensures old(mounted) && !fails ==>
                mounted && stateDirExists == old(stateDirExists) && cacheDirectory == old(cacheDirectory)
                && Tables() == RemoveRoomRecord(old(Tables()), id)
    {
      if !mounted {
        return Pass;
      }
      if fails {
        return Fail(EngineFault);
      }
      rooms := rooms - {id};
      return Pass;
    }

    /**
     * states (src/Cache.cc:175-229): reads every room record and, for each,
     * scans the room's membership table, skipping member records that do
     * not parse. A room record that does not parse raises, and nothing is
     * returned.
     */
    method States() returns (r: Result<map<RoomId, CachedRoom>, ReadError>)
      requires mounted
      ensures r == Load(Tables())
    {
      var result: map<RoomId, CachedRoom> := map[];
      var remaining := rooms.Keys;
      while remaining != {}
        invariant remaining <= rooms.Keys
        invariant forall id :: id in rooms && id !in remaining ==> rooms[id].Encoded?
        invariant result.Keys == rooms.Keys - remaining
        invariant forall id :: id in result ==>
                    result[id] == CachedRoom(rooms[id].value, Decoded(TableOf(members, id)))
        decreases remaining
      {
        var id :| id in remaining;
        var record := rooms[id];
        if record.Corrupt? {
          return Failure(CorruptRoomRecord);
        }
        var table := TableOf(members, id);
        var loaded: map<UserId, MemberEvent> := map[];
        var keys := table.Keys;
        while keys != {}
          invariant keys <= table.Keys
          invariant loaded.Keys == set k | k in table && k !in keys && table[k].Encoded?
          invariant forall k :: k in loaded ==> loaded[k] == table[k].value
          decreases keys
        {
          var k :| k in keys;
          if table[k].Encoded? {
            loaded := loaded[k := table[k].value];
          }
          keys := keys - {k};
        }
        assert loaded == Decoded(table);
        result := result[id := CachedRoom(record.value, loaded)];
        remaining := remaining - {id};
      }
      assert RoomsReadable(Tables());
      assert result == map id | id in rooms :: CachedRoom(rooms[id].value, Decoded(TableOf(members, id)));
      return Success(result);
    }

    /** isInitialized (src/Cache.cc:239-250): whether the meta table holds a next-batch token. */
    method IsInitialized() returns (b: bool)
      requires mounted
      ensures b <==> Initialized(Tables())
    {
      b := NextBatchKey in meta;
    }

    /** nextBatchToken (src/Cache.cc:252-263): the stored token, or the empty string when there is none. */
    method NextBatchToken() returns (token: string)
      requires mounted
      ensures token == Token(Tables())
    {
      token := if NextBatchKey in meta then meta[NextBatchKey] else "";
    }
  }
}
