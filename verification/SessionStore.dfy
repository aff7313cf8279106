/** The Redis session store. Every Lua script is one atomic function from store
    to store and reply; `SessionRepository` is the mutable store that runs them. */
module SessionStore {
  import opened Domain

  /** Largest integer a Lua number holds exactly. */
  const MAX_SAFE_GENERATION: nat := 9007199254740991

  datatype Access = Access(blocked: bool, generation: nat) {
    predicate Usable() {
      1 <= generation <= MAX_SAFE_GENERATION
    }
  }

  datatype Session = Session(user: UserId, jti: Jti, version: nat, generation: nat)

  /** `pointers` maps a JTI to the session key it was issued for; `index` holds
      the session keys listed for a user. */
  datatype Store = Store(
    access: map<UserId, Access>,
    sessions: map<SessionId, Session>,
    pointers: map<Jti, SessionId>,
    index: map<UserId, set<SessionId>>)

  /** `Rejected` is the scripts' nil or 0 result, `Failed` an error reply. */
  datatype Reply =
    | Created(generation: nat)
    | Found(session: SessionId, record: Session)
    | Rotated(session: SessionId)
    | Deleted
    | Updated
    | Rejected
    | Blocked
    | Failed

  datatype Command =
    | Create(session: SessionId, user: UserId, jti: Jti, version: nat)
    | Find(jti: Jti, user: UserId, session: SessionId, version: nat)
    | Rotate(jti: Jti, renewed: Jti, user: UserId, session: SessionId, version: nat)
    | DeleteOwned(user: UserId, targets: set<SessionId>)
    | DeleteOthers(user: UserId, session: SessionId)
    | DeleteAll(user: UserId)
    | Block(user: UserId)
    | Unblock(user: UserId)
    | ExpireSession(session: SessionId)
    | ExpirePointer(jti: Jti)
    | ExpireIndex(user: UserId)

  function Empty(): Store {
    Store(map[], map[], map[], map[])
  }

  function Indexed(store: Store, user: UserId): set<SessionId> {
    if user in store.index then store.index[user] else {}
  }

  function CreateSession(store: Store, id: SessionId, user: UserId, jti: Jti, version: nat): (Store, Reply) {
    if version == 0 then
      (store, Failed)
    else if user in store.access && !store.access[user].Usable() then
      (store, Failed)
    else if user in store.access && store.access[user].blocked then
      (store, Blocked)
    else
      var access := if user in store.access then store.access else store.access[user := Access(false, 1)];
      var generation := access[user].generation;
      (Store(access,
             store.sessions[id := Session(user, jti, version, generation)],
             store.pointers[jti := id],
             store.index[user := Indexed(store, user) + {id}]),
       Created(generation))
  }

  function FindSession(store: Store, jti: Jti, user: UserId, session: SessionId, version: nat): (Store, Reply) {
    if version == 0 || user !in store.access then
      (store, Rejected)
    else if !store.access[user].Usable() then
      (store, Failed)
    else if store.access[user].blocked then
      (store, Blocked)
    else if jti !in store.pointers then
      (store, Rejected)
    else
      var id := store.pointers[jti];
      if id !in store.sessions || !WellFormedFor(store.sessions[id], jti) then
        (store.(pointers := store.pointers - {jti}), Rejected)
      else if id != session || !Matches(store.sessions[id], user, version, store.access[user].generation) then
        (store, Rejected)
      else
        (store, Found(id, store.sessions[id]))
  }

  predicate WellFormedFor(record: Session, jti: Jti) {
    record.jti == jti && record.version > 0 && 1 <= record.generation <= MAX_SAFE_GENERATION
  }

  predicate Matches(record: Session, user: UserId, version: nat, generation: nat) {
    record.user == user && record.version == version && record.generation == generation
  }

  function RotateSession(store: Store, jti: Jti, renewed: Jti, user: UserId, session: SessionId, version: nat)
    : (Store, Reply)
  {
    if version == 0 then
      (store, Failed)
    else if user !in store.access then
      (store, Rejected)
    else if !store.access[user].Usable() then
      (store, Failed)
    else if store.access[user].blocked then
      (store, Blocked)
    else if jti !in store.pointers then
      (store, Rejected)
    else if store.pointers[jti] !in store.sessions then
      (store.(pointers := store.pointers - {jti}), Rejected)
    else
      var id := store.pointers[jti];
      var record := store.sessions[id];
      if id != session || !WellFormedFor(record, jti)
         || !Matches(record, user, version, store.access[user].generation) then
        (store, Rejected)
      else
        (store.(sessions := store.sessions[id := record.(jti := renewed)],
                pointers := (store.pointers - {jti})[renewed := id],
                index := store.index[user := Indexed(store, user) + {id}]),
         Rotated(id))
  }

  /** The stored sessions among `candidates` whose owner is `user`. */
  function OwnedAmong(store: Store, user: UserId, candidates: set<SessionId>): set<SessionId> {
    set id | id in candidates && id in store.sessions && store.sessions[id].user == user
  }

  /** Deletes session hashes, and every JTI that still points at the session it is current for. */
  function Revoke(store: Store, revoked: set<SessionId>): Store {
    store.(sessions := store.sessions - revoked,
           pointers := map jti | jti in store.pointers && !PointsAtRevoked(store, revoked, jti) :: store.pointers[jti])
  }

  predicate PointsAtRevoked(store: Store, revoked: set<SessionId>, jti: Jti)
    requires jti in store.pointers
  {
    var id := store.pointers[jti];
    id in revoked && id in store.sessions && store.sessions[id].jti == jti
  }

  function RevokeOne(store: Store, user: UserId, id: SessionId): Store {
    if id !in store.sessions || store.sessions[id].user != user then
      store
    else
      var jti := store.sessions[id].jti;
      store.(sessions := store.sessions - {id},
             pointers := if jti in store.pointers && store.pointers[jti] == id then store.pointers - {jti}
                         else store.pointers)
  }

  /** Revoking a set of sessions is revoking its members one by one, in any order. */
  lemma RevokeOneMore(store: Store, user: UserId, done: set<SessionId>, id: SessionId)
    requires id !in done
    ensures Revoke(store, OwnedAmong(store, user, done + {id}))
         == RevokeOne(Revoke(store, OwnedAmong(store, user, done)), user, id)
  {
    var owned := OwnedAmong(store, user, done);
    var more := OwnedAmong(store, user, done + {id});
    if id in store.sessions && store.sessions[id].user == user {
      assert more == owned + {id};
      assert Revoke(store, more).sessions == Revoke(store, owned).sessions - {id};
      assert Revoke(store, more).pointers == RevokeOne(Revoke(store, owned), user, id).pointers;
    } else {
      assert more == owned;
    }
  }

  /** Deletes session hashes of `user` with their current JTIs, whatever those point at. */
  function Drop(store: Store, user: UserId, dropped: set<SessionId>): Store {
    store.(sessions := store.sessions - dropped,
           pointers := store.pointers - CurrentJtis(store, dropped),
           index := if dropped == {} then store.index
                    else store.index[user := Indexed(store, user) - dropped])
  }

  function CurrentJtis(store: Store, ids: set<SessionId>): set<Jti> {
    set id | id in ids && id in store.sessions :: store.sessions[id].jti
  }

  function DropOne(store: Store, user: UserId, id: SessionId): Store {
    store.(sessions := store.sessions - {id},
           pointers := if id in store.sessions then store.pointers - {store.sessions[id].jti} else store.pointers,
           index := store.index[user := Indexed(store, user) - {id}])
  }

  lemma CurrentJtisOneMore(store: Store, done: set<SessionId>, id: SessionId)
    ensures CurrentJtis(store, done + {id})
         == CurrentJtis(store, done) + if id in store.sessions then {store.sessions[id].jti} else {}
    ensures id in done && id in store.sessions ==> store.sessions[id].jti in CurrentJtis(store, done)
  {
  }

  lemma DropOneMore(store: Store, user: UserId, done: set<SessionId>, id: SessionId)
    ensures Drop(store, user, done + {id}) == DropOne(Drop(store, user, done), user, id)
  {
    CurrentJtisOneMore(store, done, id);
    var more := done + {id};
    assert id in more;
    assert Indexed(Drop(store, user, done), user) == Indexed(store, user) - done;
    assert Indexed(store, user) - more == Indexed(store, user) - done - {id};
    assert Drop(store, user, more).pointers == DropOne(Drop(store, user, done), user, id).pointers;
    assert Drop(store, user, more).index == DropOne(Drop(store, user, done), user, id).index;
  }

  function DeleteOwnedSessions(store: Store, user: UserId, targets: set<SessionId>): (Store, Reply) {
    if OwnedAmong(store, user, targets) != targets then (store, Rejected)
    else (Drop(store, user, targets), Deleted)
  }

  function DeleteOtherSessions(store: Store, user: UserId, keep: SessionId): (Store, Reply) {
    if keep !in store.sessions || store.sessions[keep].user != user then
      (store, Rejected)
    else
      var candidates := Indexed(store, user) - {keep};
      (Revoke(store, OwnedAmong(store, user, candidates))
       .(index := store.index[user := Indexed(store, user) - candidates]),
       Deleted)
  }

  function DeleteAllSessions(store: Store, user: UserId): (Store, Reply) {
    (Revoke(store, OwnedAmong(store, user, Indexed(store, user))).(index := store.index - {user}), Deleted)
  }

  /** A user without access state starts from generation zero; a user already
      blocked keeps the generation; any other block advances it. */
  function BlockAndDeleteAll(store: Store, user: UserId): (Store, Reply) {
    if user in store.access && !store.access[user].Usable() then
      (store, Failed)
    else
      var blocked := user in store.access && store.access[user].blocked;
      var generation := if user in store.access then store.access[user].generation else 0;
      if !blocked && generation >= MAX_SAFE_GENERATION then
        (store, Failed)
      else
        var next := if blocked then generation else generation + 1;
        (DeleteAllSessions(store, user).0.(access := store.access[user := Access(true, next)]), Deleted)
  }

  function ReopenAccess(store: Store, user: UserId): (Store, Reply) {
    if user !in store.access || !store.access[user].Usable() then
      (store, Failed)
    else
      (store.(access := store.access[user := store.access[user].(blocked := false)]), Updated)
  }

  function Run(store: Store, command: Command): (Store, Reply) {
    match command
    case Create(session, user, jti, version) => CreateSession(store, session, user, jti, version)
    case Find(jti, user, session, version) => FindSession(store, jti, user, session, version)
    case Rotate(jti, renewed, user, session, version) => RotateSession(store, jti, renewed, user, session, version)
    case DeleteOwned(user, targets) => DeleteOwnedSessions(store, user, targets)
    case DeleteOthers(user, session) => DeleteOtherSessions(store, user, session)
    case DeleteAll(user) => DeleteAllSessions(store, user)
    case Block(user) => BlockAndDeleteAll(store, user)
    case Unblock(user) => ReopenAccess(store, user)
    case ExpireSession(session) => (store.(sessions := store.sessions - {session}), Updated)
    case ExpirePointer(jti) => (store.(pointers := store.pointers - {jti}), Updated)
    case ExpireIndex(user) => (store.(index := store.index - {user}), Updated)
  }

  function RunAll(store: Store, commands: seq<Command>): Store
    decreases |commands|
  {
    if commands == [] then store else RunAll(Run(store, commands[0]).0, commands[1..])
  }

  function Members(ids: seq<SessionId>): set<SessionId> {
    set id | id in ids
  }

  lemma MembersSnoc(ids: seq<SessionId>, i: nat)
    requires i < |ids|
    ensures Members(ids[..i + 1]) == Members(ids[..i]) + {ids[i]}
  {
    assert ids[..i + 1] == ids[..i] + [ids[i]];
  }

  /** The mutable store, with one method a script. */
  class SessionRepository {
    var access: map<UserId, Access>
    var sessions: map<SessionId, Session>
    var pointers: map<Jti, SessionId>
    var index: map<UserId, set<SessionId>>

    ghost function View(): Store
      reads this
    {
      Store(access, sessions, pointers, index)
    }

    constructor ()
      ensures View() == Empty()
    {
      access, sessions, pointers, index := map[], map[], map[], map[];
    }

    method Create(id: SessionId, user: UserId, jti: Jti, version: nat) returns (reply: Reply)
      modifies this
      ensures (View(), reply) == CreateSession(old(View()), id, user, jti, version)
    {
      if version == 0 {
        return Failed;
      }
      var generation: nat := 1;
      var initializeAccess := user !in access;
      if !initializeAccess {
        if !access[user].Usable() {
          return Failed;
        }
        if access[user].blocked {
          return Blocked;
        }
        generation := access[user].generation;
      } else {
        access := access[user := Access(false, generation)];
      }
      sessions := sessions[id := Session(user, jti, version, generation)];
      pointers := pointers[jti := id];
      index := index[user := (if user in index then index[user] else {}) + {id}];
      reply := Created(generation);
    }

    method FindByJTI(jti: Jti, user: UserId, session: SessionId, version: nat) returns (reply: Reply)
      modifies this
      ensures (View(), reply) == FindSession(old(View()), jti, user, session, version)
    {
      reply := Rejected;
      if version == 0 || user !in access {
        return;
      }
      if !access[user].Usable() {
        return Failed;
      }
      if access[user].blocked {
        return Blocked;
      }
      if jti !in pointers {
        return;
      }
      var id := pointers[jti];
      if id !in sessions || !WellFormedFor(sessions[id], jti) {
        pointers := pointers - {jti};
        return;
      }
      if id == session && Matches(sessions[id], user, version, access[user].generation) {
        reply := Found(id, sessions[id]);
      }
    }

    method RotateJTI(jti: Jti, renewed: Jti, user: UserId, session: SessionId, version: nat) returns (reply: Reply)
      modifies this
      ensures (View(), reply) == RotateSession(old(View()), jti, renewed, user, session, version)
    {
      if version == 0 {
        return Failed;
      }
      reply := Rejected;
      if user !in access {
        return;
      }
      if !access[user].Usable() {
        return Failed;
      }
      if access[user].blocked {
        return Blocked;
      }
      if jti !in pointers {
        return;
      }
      var id := pointers[jti];
      if id !in sessions {
        pointers := pointers - {jti};
        return;
      }
      var record := sessions[id];
      if id != session || !WellFormedFor(record, jti)
         || !Matches(record, user, version, access[user].generation) {
        return;
      }
      pointers := pointers - {jti};
      pointers := pointers[renewed := id];
      sessions := sessions[id := record.(jti := renewed)];
      index := index[user := (if user in index then index[user] else {}) + {id}];
      reply := Rotated(id);
    }

    method RevokeIfOwned(user: UserId, id: SessionId)
      modifies this`sessions, this`pointers
      ensures View() == RevokeOne(old(View()), user, id)
    {
      if id in sessions && sessions[id].user == user {
        var jti := sessions[id].jti;
        if jti in pointers && pointers[jti] == id {
          pointers := pointers - {jti};
        }
        sessions := sessions - {id};
      }
    }

    /** The deletion loop shared by the three modes of the deletion script. */
    method RevokeOwned(user: UserId, candidates: set<SessionId>)
      modifies this`sessions, this`pointers
      ensures View() == Revoke(old(View()), OwnedAmong(old(View()), user, candidates))
    {
      ghost var before := View();
      var pending := candidates;
      ghost var done: set<SessionId> := {};
      assert View() == Revoke(before, OwnedAmong(before, user, done));
      while pending != {}
        invariant done + pending == candidates && done !! pending
        invariant View() == Revoke(before, OwnedAmong(before, user, done))
        decreases |pending|
      {
        var id :| id in pending;
        RevokeOneMore(before, user, done, id);
        RevokeIfOwned(user, id);
        pending := pending - {id};
        done := done + {id};
      }
      assert done == candidates;
    }

    method DeleteByUser(user: UserId, targets: seq<SessionId>) returns (reply: Reply)
      modifies this
      ensures (View(), reply) == DeleteOwnedSessions(old(View()), user, Members(targets))
    {
      ghost var before := View();
      for i := 0 to |targets|
        invariant View() == before
        invariant forall k :: 0 <= k < i ==> targets[k] in sessions && sessions[targets[k]].user == user
      {
        if targets[i] !in sessions || sessions[targets[i]].user != user {
          assert targets[i] in Members(targets) && targets[i] !in OwnedAmong(before, user, Members(targets));
          return Rejected;
        }
      }
      assert OwnedAmong(before, user, Members(targets)) == Members(targets);
      for i := 0 to |targets|
        invariant View() == Drop(before, user, Members(targets[..i]))
      {
        var id := targets[i];
        DropOneMore(before, user, Members(targets[..i]), id);
        MembersSnoc(targets, i);
        index := index[user := (if user in index then index[user] else {}) - {id}];
        if id in sessions {
          pointers := pointers - {sessions[id].jti};
        }
        sessions := sessions - {id};
      }
      assert targets[..|targets|] == targets;
      reply := Deleted;
    }

    method DeleteOthersByUser(user: UserId, keep: SessionId) returns (reply: Reply)
      modifies this
      ensures (View(), reply) == DeleteOtherSessions(old(View()), user, keep)
    {
      if keep !in sessions || sessions[keep].user != user {
        return Rejected;
      }
      var indexed := if user in index then index[user] else {};
      RevokeOwned(user, indexed - {keep});
      index := index[user := indexed - (indexed - {keep})];
      reply := Deleted;
    }

    method DeleteAllByUser(user: UserId) returns (reply: Reply)
      modifies this
      ensures (View(), reply) == DeleteAllSessions(old(View()), user)
    {
      RevokeOwned(user, if user in index then index[user] else {});
      index := index - {user};
      reply := Deleted;
    }

    method BlockAndDeleteAllByUser(user: UserId) returns (reply: Reply)
      modifies this
      ensures (View(), reply) == BlockAndDeleteAll(old(View()), user)
    {
      var blocked := false;
      var generation: nat := 0;
      if user in access {
        if !access[user].Usable() {
          return Failed;
        }
        blocked, generation := access[user].blocked, access[user].generation;
      }
      if !blocked {
        if generation >= MAX_SAFE_GENERATION {
          return Failed;
        }
        generation := generation + 1;
      }
      reply := DeleteAllByUser(user);
      access := access[user := Access(true, generation)];
    }

    method UnblockUser(user: UserId) returns (reply: Reply)
      modifies this
      ensures (View(), reply) == ReopenAccess(old(View()), user)
    {
      if user !in access || !access[user].Usable() {
        return Failed;
      }
      access := access[user := access[user].(blocked := false)];
      reply := Updated;
    }
  }
}
