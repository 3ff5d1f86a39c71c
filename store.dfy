/**
 * The contents of the room-state cache as values: the three kinds of
 * table the cache keeps in its storage environment, the membership
 * transition rule that `insertRoomState` applies, the effect of one whole
 * `setState` batch, and the view `states()` reconstructs from the tables.
 * The class in cache.dfy performs these operations step by step and is
 * proved against the functions here.
 */
module CacheStore {
  import opened Wrappers

  type RoomId = string
  type UserId = string

  /** A room's serialized non-membership state; the cache never looks inside it. */
  type RoomAttrs = string

  datatype Membership = Invite | Join | Leave | Ban | Knock

  /** Invite and Join put a record for the user. */
  predicate Admits(m: Membership) {
    m == Invite || m == Join
  }

  /** A member state event: the user it is about (its state key), the membership, and the rest of the event. */
  datatype MemberEvent = MemberEvent(stateKey: UserId, membership: Membership, payload: string)

  /**
   * A record as the engine holds it: the serialization of a value, or bytes
   * that no longer parse (left by another version, or damaged on disk).
   */
  datatype Stored<T> = Encoded(value: T) | Corrupt(raw: string)

  /** One room's membership table: user id to serialized member event. */
  type MemberTable = map<UserId, Stored<MemberEvent>>

  /**
   * The tables of one environment: the meta table (named "state" in the
   * environment), the "rooms" table, and one membership table per room,
   * named by the room id.
   */
  datatype Store = Store(
    meta: map<string, string>,
    rooms: map<RoomId, Stored<RoomAttrs>>,
    members: map<RoomId, MemberTable>)

  const NextBatchKey: string := "next_batch"

  const EmptyStore: Store := Store(map[], map[], map[])

  /** What the sync layer hands to setState for one room: its state and its member events, in the order they are visited. */
  datatype RoomState = RoomState(attrs: RoomAttrs, memberships: seq<MemberEvent>)

  /** What states() returns for one room: its state and the member events keyed by user id. */
  datatype CachedRoom = CachedRoom(attrs: RoomAttrs, members: map<UserId, MemberEvent>)

  /** states() fails when a room record does not parse; that exception is not caught. */
  datatype ReadError = CorruptRoomRecord

  // ---------------------------------------------------------------------------
  // The sync token
  // ---------------------------------------------------------------------------

  /** isInitialized(): the meta table holds a next-batch token. */
  predicate Initialized(s: Store) {
    NextBatchKey in s.meta
  }

  /** nextBatchToken(): the stored token, or the empty string when there is none. */
  function Token(s: Store): string {
    if NextBatchKey in s.meta then s.meta[NextBatchKey] else ""
  }

  /** setNextBatchToken (src/Cache.cc:231-237): the token is stored, every other table is left alone. */
  function PutToken(s: Store, token: string): (r: Store)
    ensures Initialized(r) && Token(r) == token
    ensures r.rooms == s.rooms && r.members == s.members
    ensures forall key :: key in s.meta && key != NextBatchKey ==> key in r.meta && r.meta[key] == s.meta[key]
  {
    s.(meta := s.meta[NextBatchKey := token])
  }

  /** A store without a next-batch token reports itself uninitialized, with an empty token. */
  lemma TokenlessStoreIsUninitialized(s: Store)
    requires NextBatchKey !in s.meta
    ensures !Initialized(s) && Token(s) == ""
  {
  }

  /** The empty store, which a fresh state directory holds, is uninitialized and reads back no rooms. */
  lemma EmptyStoreIsUninitialized()
    ensures !Initialized(EmptyStore) && Token(EmptyStore) == ""
    ensures Load(EmptyStore) == Success(map[])
  {
  }

  // ---------------------------------------------------------------------------
  // The membership transition rule
  // ---------------------------------------------------------------------------

  function Lookup<V>(t: map<UserId, V>, k: UserId): Option<V> {
    if k in t then Some(t[k]) else None
  }

  /** The transition rule for one member event (src/Cache.cc:139-158). */
  function ApplyMembership(t: MemberTable, e: MemberEvent): (r: MemberTable)
    ensures Admits(e.membership) ==> Lookup(r, e.stateKey) == Some(Encoded(e))
    ensures e.membership == Leave || e.membership == Ban ==> Lookup(r, e.stateKey) == None
    ensures e.membership == Knock ==> r == t
    ensures !Admits(e.membership) && e.stateKey !in t ==> r == t
    ensures forall k :: k != e.stateKey ==> Lookup(r, k) == Lookup(t, k)
  {
    match e.membership
    case Invite | Join => t[e.stateKey := Encoded(e)]
    case Leave | Ban =>
      var r := t - {e.stateKey};
      assert e.stateKey !in t ==> r == t;
      r
    case Knock => t
  }

  /** Every record of `r` that `t` lacks is a parsable invite or join, filed under its own state key. */
  predicate AddsOnlyAdmitted(t: MemberTable, r: MemberTable) {
    forall k :: k in r && k !in t ==> r[k].Encoded? && r[k].value.stateKey == k && Admits(r[k].value.membership)
  }

  /** The events of one room applied in order, as the loop over `state.memberships` does. */
  function ApplyMemberships(t: MemberTable, ms: seq<MemberEvent>): (r: MemberTable)
    ensures AddsOnlyAdmitted(t, r)
    decreases |ms|
  {
    if ms == [] then t else ApplyMembership(ApplyMemberships(t, ms[..|ms| - 1]), ms[|ms| - 1])
  }

  /** Reference definition: the last event about user k that is not a knock. */
  function LastEffective(ms: seq<MemberEvent>, k: UserId): Option<MemberEvent>
    decreases |ms|
  {
    if ms == [] then None
    else
      var e := ms[|ms| - 1];
      if e.stateKey == k && e.membership != Knock then Some(e) else LastEffective(ms[..|ms| - 1], k)
  }

  /** The record for a user after a batch whose last effective event for that user is `last`. */
  function Resolve(prior: Option<Stored<MemberEvent>>, last: Option<MemberEvent>): Option<Stored<MemberEvent>> {
    match last
    case None => prior
    case Some(e) => if Admits(e.membership) then Some(Encoded(e)) else None
  }

  /**
   * Latest transition wins: a user's record after the batch is fixed by the
   * last event about that user that is not a knock; a user no such event
   * mentions keeps the prior record.
   */
  lemma {:induction false} LatestWins(t: MemberTable, ms: seq<MemberEvent>, k: UserId)
    ensures Lookup(ApplyMemberships(t, ms), k) == Resolve(Lookup(t, k), LastEffective(ms, k))
    decreases |ms|
  {
    if ms != [] {
      LatestWins(t, ms[..|ms| - 1], k);
    }
  }

  lemma SameLookups(a: MemberTable, b: MemberTable)
    requires forall k :: Lookup(a, k) == Lookup(b, k)
    ensures a == b
  {
    assert a.Keys == b.Keys by {
      forall k ensures k in a <==> k in b { assert Lookup(a, k) == Lookup(b, k); }
    }
    forall k | k in a ensures a[k] == b[k] { assert Lookup(a, k) == Lookup(b, k); }
  }

  /** Invite then join leaves exactly one record for the user, with the join's payload; a later leave or ban removes it. */
  lemma InviteJoinLeave(t: MemberTable, invite: MemberEvent, join: MemberEvent, leave: MemberEvent)
    requires invite.membership == Invite && join.membership == Join
    requires leave.membership == Leave || leave.membership == Ban
    requires invite.stateKey == join.stateKey == leave.stateKey
    ensures Lookup(ApplyMemberships(t, [invite, join]), join.stateKey) == Some(Encoded(join))
    ensures Lookup(ApplyMemberships(t, [invite, join, leave]), join.stateKey) == None
  {
    var k := join.stateKey;
    LatestWins(t, [invite, join], k);
    assert [invite, join][..1] == [invite];
    assert LastEffective([invite, join], k) == Some(join);
    LatestWins(t, [invite, join, leave], k);
    assert LastEffective([invite, join, leave], k) == Some(leave);
  }

  /** The events that are not knocks, in order. */
  function WithoutKnocks(ms: seq<MemberEvent>): (r: seq<MemberEvent>)
    ensures forall i :: 0 <= i < |r| ==> r[i].membership != Knock
    decreases |ms|
  {
    if ms == [] then []
    else if ms[|ms| - 1].membership == Knock then WithoutKnocks(ms[..|ms| - 1])
    else WithoutKnocks(ms[..|ms| - 1]) + [ms[|ms| - 1]]
  }

  /** A knock never creates or removes a record: dropping every knock from a batch changes nothing. */
  lemma {:induction false} KnocksAreIgnored(t: MemberTable, ms: seq<MemberEvent>)
    ensures ApplyMemberships(t, ms) == ApplyMemberships(t, WithoutKnocks(ms))
    decreases |ms|
  {
    if ms != [] {
      var init, last := ms[..|ms| - 1], ms[|ms| - 1];
      KnocksAreIgnored(t, init);
      if last.membership == Knock {
        calc {
          ApplyMemberships(t, ms);
          ApplyMembership(ApplyMemberships(t, init), last);
          ApplyMemberships(t, init);
          ApplyMemberships(t, WithoutKnocks(init));
          ApplyMemberships(t, WithoutKnocks(ms));
        }
      } else {
        var w := WithoutKnocks(init) + [last];
        assert WithoutKnocks(ms) == w;
        assert w[..|w| - 1] == WithoutKnocks(init) && w[|w| - 1] == last;
        calc {
          ApplyMemberships(t, ms);
          ApplyMembership(ApplyMemberships(t, init), last);
          ApplyMembership(ApplyMemberships(t, WithoutKnocks(init)), last);
          ApplyMemberships(t, w);
        }
      }
    }
  }

  /** Replaying the same events over their own result changes nothing. */
  lemma ReplayMembershipsIsIdempotent(t: MemberTable, ms: seq<MemberEvent>)
    ensures ApplyMemberships(ApplyMemberships(t, ms), ms) == ApplyMemberships(t, ms)
  {
    var once := ApplyMemberships(t, ms);
    forall k ensures Lookup(ApplyMemberships(once, ms), k) == Lookup(once, k) {
      LatestWins(t, ms, k);
      LatestWins(once, ms, k);
    }
    SameLookups(ApplyMemberships(once, ms), once);
  }

  // ---------------------------------------------------------------------------
  // One setState batch
  // ---------------------------------------------------------------------------

  /** The membership table of a room, empty when it has never been created. */
  function TableOf(members: map<RoomId, MemberTable>, id: RoomId): MemberTable {
    if id in members then members[id] else map[]
  }

  /**
   * insertRoomState for one room: the room record is replaced, and the
   * room's membership table (created on the first event) receives the
   * room's events.
   */
  function WithRoomState(s: Store, id: RoomId, st: RoomState): Store {
    Store(
      s.meta,
      s.rooms[id := Encoded(st.attrs)],
      if |st.memberships| > 0 then s.members[id := ApplyMemberships(TableOf(s.members, id), st.memberships)]
      else s.members)
  }

  /**
   * The effect of insertRoomState on one room: its record becomes the
   * encoding of the new attributes, its table is the old one (empty if it
   * had none) updated by the events and exists afterwards exactly when it
   * did before or an event arrived, and no other room and no meta entry
   * changes.
   */
  lemma WithRoomStateEffect(s: Store, id: RoomId, st: RoomState)
    ensures var r := WithRoomState(s, id, st);
            && r.meta == s.meta
            && r.rooms.Keys == s.rooms.Keys + {id}
            && r.rooms[id] == Encoded(st.attrs)
            && (forall other :: other in s.rooms && other != id ==> r.rooms[other] == s.rooms[other])
            && TableOf(r.members, id) == ApplyMemberships(TableOf(s.members, id), st.memberships)
            && (id in r.members <==> id in s.members || |st.memberships| > 0)
            && (forall other :: other != id ==> TableOf(r.members, other) == TableOf(s.members, other))
  {
  }

  /** The room records after inserting the rooms of `ids`. */
  function RoomsAfter(rooms: map<RoomId, Stored<RoomAttrs>>, batch: map<RoomId, RoomState>, ids: set<RoomId>)
    : map<RoomId, Stored<RoomAttrs>>
  {
    rooms + map id | id in batch && id in ids :: Encoded(batch[id].attrs)
  }

  /** The new membership tables of the rooms of `ids` that carry member events. */
  function MemberWrites(members: map<RoomId, MemberTable>, batch: map<RoomId, RoomState>, ids: set<RoomId>)
    : map<RoomId, MemberTable>
  {
    map id | id in batch && id in ids && |batch[id].memberships| > 0
           :: ApplyMemberships(TableOf(members, id), batch[id].memberships)
  }

  /** The membership tables after inserting the rooms of `ids`. */
  function MembersAfter(members: map<RoomId, MemberTable>, batch: map<RoomId, RoomState>, ids: set<RoomId>)
    : map<RoomId, MemberTable>
  {
    members + MemberWrites(members, batch, ids)
  }

  /** The rooms of `ids` inserted; the rooms are distinct, so their order does not matter. */
  function WriteRooms(s: Store, batch: map<RoomId, RoomState>, ids: set<RoomId>): Store {
    Store(s.meta, RoomsAfter(s.rooms, batch, ids), MembersAfter(s.members, batch, ids))
  }

  /** The rooms of a batch whose state carries member events. */
  function RoomsWithMembers(batch: map<RoomId, RoomState>): set<RoomId> {
    set id | id in batch && |batch[id].memberships| > 0
  }

  /** The committed effect of setState(token, batch) (src/Cache.cc:103-110). */
  function ApplyBatch(s: Store, token: string, batch: map<RoomId, RoomState>): (r: Store)
    // After a batch the cache is initialized and reports the batch's token.
    ensures Initialized(r) && Token(r) == token
  {
    WriteRooms(PutToken(s, token), batch, batch.Keys)
  }

  lemma RoomsOneMore(rooms: map<RoomId, Stored<RoomAttrs>>, batch: map<RoomId, RoomState>, done: set<RoomId>, id: RoomId)
    requires id in batch && id !in done
    ensures RoomsAfter(rooms, batch, done + {id}) == RoomsAfter(rooms, batch, done)[id := Encoded(batch[id].attrs)]
  {
  }

  lemma MemberWritesOneMore(members: map<RoomId, MemberTable>, batch: map<RoomId, RoomState>, done: set<RoomId>, id: RoomId)
    requires id in batch && id !in done
    ensures var ms := batch[id].memberships;
            MemberWrites(members, batch, done + {id})
            == if |ms| > 0 then MemberWrites(members, batch, done)[id := ApplyMemberships(TableOf(members, id), ms)]
               else MemberWrites(members, batch, done)
  {
  }

  lemma UnwrittenTable(members: map<RoomId, MemberTable>, batch: map<RoomId, RoomState>, done: set<RoomId>, id: RoomId)
    requires id !in done
    ensures TableOf(MembersAfter(members, batch, done), id) == TableOf(members, id)
  {
    assert id !in MemberWrites(members, batch, done);
  }

  lemma MembersOneMore(members: map<RoomId, MemberTable>, batch: map<RoomId, RoomState>, done: set<RoomId>, id: RoomId)
    requires id in batch && id !in done
    ensures var before := MembersAfter(members, batch, done);
            var ms := batch[id].memberships;
            MembersAfter(members, batch, done + {id})
            == if |ms| > 0 then before[id := ApplyMemberships(TableOf(before, id), ms)] else before
  {
    MemberWritesOneMore(members, batch, done, id);
    var c0 := MemberWrites(members, batch, done);
    var ms := batch[id].memberships;
    UnwrittenTable(members, batch, done, id);
    if |ms| > 0 {
      var v := ApplyMemberships(TableOf(members, id), ms);
      UnionUpdate(members, c0, id, v);
      calc {
        MembersAfter(members, batch, done + {id});
        members + MemberWrites(members, batch, done + {id});
        members + c0[id := v];
        (members + c0)[id := v];
      }
    }
  }

  lemma UnionUpdate<K, V>(m: map<K, V>, c: map<K, V>, k: K, v: V)
    ensures m + c[k := v] == (m + c)[k := v]
  {
  }

  /** Inserting one more room extends the rooms written so far. */
  lemma WriteOneMoreRoom(s: Store, batch: map<RoomId, RoomState>, done: set<RoomId>, id: RoomId)
    requires id in batch && id !in done
    ensures WriteRooms(s, batch, done + {id}) == WithRoomState(WriteRooms(s, batch, done), id, batch[id])
  {
    RoomsOneMore(s.rooms, batch, done, id);
    MembersOneMore(s.members, batch, done, id);
  }

  lemma WriteNoRooms(s: Store, batch: map<RoomId, RoomState>)
    ensures WriteRooms(s, batch, {}) == s
  {
    assert RoomsAfter(s.rooms, batch, {}) == s.rooms;
    assert MembersAfter(s.members, batch, {}) == s.members;
  }

  /** The room records after a batch: every room of the batch replaced, every other room kept. */
  lemma BatchRooms(s: Store, token: string, batch: map<RoomId, RoomState>)
    ensures var r := ApplyBatch(s, token, batch);
      && r.rooms.Keys == s.rooms.Keys + batch.Keys
      && (forall id :: id in batch ==> r.rooms[id] == Encoded(batch[id].attrs))
      && (forall id :: id in s.rooms && id !in batch ==> r.rooms[id] == s.rooms[id])
  {
  }

  /** A batch creates a membership table only for a room whose state carries member events. */
  lemma BatchCreatesTables(s: Store, token: string, batch: map<RoomId, RoomState>)
    ensures ApplyBatch(s, token, batch).members.Keys == s.members.Keys + RoomsWithMembers(batch)
  {
    assert MemberWrites(s.members, batch, batch.Keys).Keys == RoomsWithMembers(batch);
  }

  /** The membership table of a room after a batch. */
  lemma BatchTable(s: Store, token: string, batch: map<RoomId, RoomState>, id: RoomId)
    ensures TableOf(ApplyBatch(s, token, batch).members, id)
            == if id in batch then ApplyMemberships(TableOf(s.members, id), batch[id].memberships)
               else TableOf(s.members, id)
  {
    var w := MemberWrites(s.members, batch, batch.Keys);
    assert id in w <==> id in batch && |batch[id].memberships| > 0;
  }

  /**
   * A batch writes the token, replaces the record of every room it names,
   * and touches neither the records nor the membership tables of other
   * rooms.
   */
  lemma BatchFrame(s: Store, token: string, batch: map<RoomId, RoomState>)
    ensures var r := ApplyBatch(s, token, batch);
      && r.meta == s.meta[NextBatchKey := token]
      && r.rooms.Keys == s.rooms.Keys + batch.Keys
      && (forall id :: id in batch ==> r.rooms[id] == Encoded(batch[id].attrs))
      && (forall id :: id in s.rooms && id !in batch ==> r.rooms[id] == s.rooms[id])
      && (forall id :: id !in batch ==> TableOf(r.members, id) == TableOf(s.members, id))
  {
    BatchRooms(s, token, batch);
    forall id | id !in batch
      ensures TableOf(ApplyBatch(s, token, batch).members, id) == TableOf(s.members, id)
    {
      BatchTable(s, token, batch, id);
    }
  }

  /** Delivering the same batch twice leaves the same tables as delivering it once. */
  lemma BatchIsIdempotent(s: Store, token: string, batch: map<RoomId, RoomState>)
    ensures ApplyBatch(ApplyBatch(s, token, batch), token, batch) == ApplyBatch(s, token, batch)
  {
    var once := ApplyBatch(s, token, batch);
    var twice := ApplyBatch(once, token, batch);
    forall id | id in batch && |batch[id].memberships| > 0
      ensures twice.members[id] == once.members[id]
    {
      ReplayMembershipsIsIdempotent(TableOf(s.members, id), batch[id].memberships);
    }
    assert twice.members == once.members;
    assert twice.rooms == once.rooms;
  }

  // ---------------------------------------------------------------------------
  // Reading the cache back: states()
  // ---------------------------------------------------------------------------

  /** Whether a stored member record parses, and to what. */
  function Parsed(r: Option<Stored<MemberEvent>>): Option<MemberEvent> {
    if r.Some? && r.value.Encoded? then Some(r.value.value) else None
  }

  /** The member events of a table that parse; the others are skipped (src/Cache.cc:205-213). */
  function Decoded(t: MemberTable): map<UserId, MemberEvent> {
    map k | k in t && t[k].Encoded? :: t[k].value
  }

  predicate RoomsReadable(s: Store) {
    forall id :: id in s.rooms ==> s.rooms[id].Encoded?
  }

  /** The result of states(): every room record with its parsed membership table, or the error a bad room record raises. */
  function Load(s: Store): (r: Result<map<RoomId, CachedRoom>, ReadError>)
    // The read fails only because of a room record that does not parse.
    ensures r.Failure? ==> exists id :: id in s.rooms && s.rooms[id].Corrupt?
  {
    if RoomsReadable(s) then
      Success(map id | id in s.rooms :: CachedRoom(s.rooms[id].value, Decoded(TableOf(s.members, id))))
    else
      Failure(CorruptRoomRecord)
  }

  /**
   * states() fails exactly when some room record does not parse; otherwise
   * it returns exactly the rooms of the rooms table, each with the entries
   * of its membership table that parse, keyed by user id.
   */
  lemma LoadContents(s: Store)
    ensures Load(s).Success? <==> RoomsReadable(s)
    ensures Load(s).Success? ==> Load(s).value.Keys == s.rooms.Keys
    ensures Load(s).Success? ==> forall id, k :: id in s.rooms ==>
              Load(s).value[id].attrs == s.rooms[id].value
              && Lookup(Load(s).value[id].members, k) == Parsed(Lookup(TableOf(s.members, id), k))
  {
  }

  /**
   * Round trip: after a batch, states() returns each room of the batch with
   * the batch's room state, and each user's membership resolved from the
   * prior table by the latest transition rule. It succeeds exactly when the
   * rooms outside the batch had readable records.
   */
  lemma {:induction false} LoadAfterBatch(s: Store, token: string, batch: map<RoomId, RoomState>, id: RoomId, k: UserId)
    requires id in batch
    ensures var after := Load(ApplyBatch(s, token, batch));
      && (after.Success? <==> forall other :: other in s.rooms && other !in batch ==> s.rooms[other].Encoded?)
      && (after.Success? ==>
            && id in after.value
            && after.value[id].attrs == batch[id].attrs
            && Lookup(after.value[id].members, k)
               == Parsed(Resolve(Lookup(TableOf(s.members, id), k), LastEffective(batch[id].memberships, k))))
  {
    var r := ApplyBatch(s, token, batch);
    var ms := batch[id].memberships;
    BatchRooms(s, token, batch);
    assert RoomsReadable(r) <==> forall other :: other in s.rooms && other !in batch ==> s.rooms[other].Encoded? by {
      if forall other :: other in s.rooms && other !in batch ==> s.rooms[other].Encoded? {
        forall other | other in r.rooms ensures r.rooms[other].Encoded? {
          if other !in batch { assert other in s.rooms; }
        }
      }
    }
    LoadContents(r);
    BatchTable(s, token, batch, id);
    LatestWins(TableOf(s.members, id), ms, k);
    if |ms| == 0 {
      assert LastEffective(ms, k) == None;
    }
  }

  /**
   * For a room seen for the first time, states() returns exactly the users
   * whose last effective event is an invite or a join, each with that event.
   */
  lemma NewRoomRoundTrip(s: Store, token: string, batch: map<RoomId, RoomState>, id: RoomId, k: UserId)
    requires id in batch && id !in s.members
    requires RoomsReadable(s)
    ensures Load(ApplyBatch(s, token, batch)).Success?
    ensures var room := Load(ApplyBatch(s, token, batch)).value[id];
      match LastEffective(batch[id].memberships, k)
      case None => k !in room.members
      case Some(e) => (k in room.members <==> Admits(e.membership)) && (k in room.members ==> room.members[k] == e)
  {
    LoadAfterBatch(s, token, batch, id, k);
  }

  // ---------------------------------------------------------------------------
  // removeRoom
  // ---------------------------------------------------------------------------

  /** removeRoom: only the room record goes (src/Cache.cc:168-172). */
  function RemoveRoomRecord(s: Store, id: RoomId): (r: Store)
    ensures r.rooms.Keys == s.rooms.Keys - {id}
    ensures forall other :: other in r.rooms ==> r.rooms[other] == s.rooms[other]
  {
    s.(rooms := s.rooms - {id})
  }

  /**
   * After removeRoom the room is gone from states() and every other room is
   * read as before; the token and every membership table are unchanged.
   */
  lemma RemoveRoomEffect(s: Store, id: RoomId)
    ensures RemoveRoomRecord(s, id).meta == s.meta && RemoveRoomRecord(s, id).members == s.members
    ensures Load(s).Success? ==> Load(RemoveRoomRecord(s, id)).Success?
    ensures Load(s).Success? ==> Load(RemoveRoomRecord(s, id)).value == Load(s).value - {id}
  {
    LoadContents(s);
    LoadContents(RemoveRoomRecord(s, id));
  }

  /**
   * The membership table a removal orphans is picked up again when the room
   * id comes back: a later batch that names the room without member events
   * reads back the members it had before the removal.
   */
  lemma OrphanedTableResurfaces(s: Store, id: RoomId, token: string, attrs: RoomAttrs)
    requires RoomsReadable(s)
    ensures var after := Load(ApplyBatch(RemoveRoomRecord(s, id), token, map[id := RoomState(attrs, [])]));
      && after.Success? && id in after.value
      && after.value[id].members == Decoded(TableOf(s.members, id))
  {
    var removed := RemoveRoomRecord(s, id);
    var batch := map[id := RoomState(attrs, [])];
    var r := ApplyBatch(removed, token, batch);
    BatchRooms(removed, token, batch);
    BatchTable(removed, token, batch, id);
    assert RoomsReadable(r) by {
      forall other | other in r.rooms ensures r.rooms[other].Encoded? {
        if other != id { assert other in s.rooms; }
      }
    }
    LoadContents(r);
  }
}
