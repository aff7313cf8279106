/** Session generations over every interleaving of store commands: why a block
    revokes sessions for good, even sessions the index has lost. */
module SessionGenerations {
  import opened Domain
  import opened SessionStore

  /** No stored session is above its user's generation, and none is at it while the user is blocked. */
  ghost predicate Ordered(store: Store) {
    && (forall user :: user in store.access ==> store.access[user].Usable())
    && (forall id :: id in store.sessions ==> WithinGeneration(store, id))
  }

  predicate WithinGeneration(store: Store, id: SessionId)
    requires id in store.sessions
  {
    var record := store.sessions[id];
    && record.version > 0
    && record.user in store.access
    && 1 <= record.generation <= store.access[record.user].generation
    && (store.access[record.user].blocked ==> record.generation < store.access[record.user].generation)
  }

  /** Access states are never lost and generations never decrease. */
  ghost predicate Advances(before: Store, after: Store) {
    forall user :: user in before.access ==>
      user in after.access && before.access[user].generation <= after.access[user].generation
  }

  /** Either the session is gone or a block has overtaken it. */
  predicate Overtaken(store: Store, id: SessionId) {
    id in store.sessions ==>
      var record := store.sessions[id];
      record.user in store.access && record.generation < store.access[record.user].generation
  }

  predicate Creates(command: Command, id: SessionId) {
    command.Create? && command.session == id
  }

  /** A stored session is new, rotated, or exactly what it was. */
  lemma SessionEffect(store: Store, command: Command, id: SessionId)
    requires id in Run(store, command).0.sessions
    ensures var after := Run(store, command).0.sessions[id];
            var reply := Run(store, command).1;
            || (reply.Created? && command.Create? && id == command.session
                && after == Session(command.user, command.jti, command.version, reply.generation))
            || (reply == Rotated(id) && command.Rotate? && id == command.session && id in store.sessions
                && store.sessions[id].jti == command.jti && after == store.sessions[id].(jti := command.renewed))
            || (id in store.sessions && after == store.sessions[id] && reply != Rotated(id)
                && !(reply.Created? && id == command.session))
  {
  }

  lemma RunKeepsOrder(store: Store, command: Command)
    requires Ordered(store)
    ensures Ordered(Run(store, command).0)
    ensures Advances(store, Run(store, command).0)
  {
    match command
    case Create(session, user, jti, version) => CreateKeepsOrder(store, session, user, jti, version);
    case Block(user) => BlockKeepsOrder(store, user);
    case Unblock(user) => UnblockKeepsOrder(store, user);
    case _ =>
      OthersKeepAccess(store, command);
      forall id | id in Run(store, command).0.sessions ensures WithinGeneration(Run(store, command).0, id) {
        SessionEffect(store, command, id);
        assert WithinGeneration(store, id);
      }
  }

  lemma OthersKeepAccess(store: Store, command: Command)
    requires !command.Create? && !command.Block? && !command.Unblock?
    ensures Run(store, command).0.access == store.access && !Run(store, command).1.Created?
  {
  }

  lemma CreateKeepsOrder(store: Store, session: SessionId, user: UserId, jti: Jti, version: nat)
    requires Ordered(store)
    ensures Ordered(CreateSession(store, session, user, jti, version).0)
    ensures Advances(store, CreateSession(store, session, user, jti, version).0)
  {
    var after := CreateSession(store, session, user, jti, version).0;
    forall id | id in after.sessions && id in store.sessions ensures WithinGeneration(store, id) {
    }
  }

  lemma BlockKeepsOrder(store: Store, user: UserId)
    requires Ordered(store)
    ensures Ordered(BlockAndDeleteAll(store, user).0)
    ensures Advances(store, BlockAndDeleteAll(store, user).0)
  {
    var after := BlockAndDeleteAll(store, user).0;
    forall id | id in after.sessions ensures WithinGeneration(after, id) {
      assert WithinGeneration(store, id);
    }
  }

  lemma UnblockKeepsOrder(store: Store, user: UserId)
    requires Ordered(store)
    ensures Ordered(ReopenAccess(store, user).0)
    ensures Advances(store, ReopenAccess(store, user).0)
  {
    var after := ReopenAccess(store, user).0;
    forall id | id in after.sessions ensures WithinGeneration(after, id) {
      assert WithinGeneration(store, id);
    }
  }

  /** Generation order holds in every reachable store, and generations only grow on the way. */
  lemma {:induction false} EveryRunKeepsOrder(store: Store, commands: seq<Command>)
    requires Ordered(store)
    ensures Ordered(RunAll(store, commands))
    ensures Advances(store, RunAll(store, commands))
    decreases |commands|
  {
    if commands != [] {
      RunKeepsOrder(store, commands[0]);
      EveryRunKeepsOrder(Run(store, commands[0]).0, commands[1..]);
    }
  }

  lemma OvertakenStays(store: Store, command: Command, id: SessionId)
    requires Ordered(store) && Overtaken(store, id) && !Creates(command, id)
    ensures Overtaken(Run(store, command).0, id)
  {
    RunKeepsOrder(store, command);
    var after := Run(store, command).0;
    if id in after.sessions {
      SessionEffect(store, command, id);
    }
  }

  lemma {:induction false} OvertakenForever(store: Store, commands: seq<Command>, id: SessionId)
    requires Ordered(store) && Overtaken(store, id)
    requires forall command :: command in commands ==> !Creates(command, id)
    ensures Overtaken(RunAll(store, commands), id)
    decreases |commands|
  {
    if commands != [] {
      RunKeepsOrder(store, commands[0]);
      OvertakenStays(store, commands[0], id);
      OvertakenForever(Run(store, commands[0]).0, commands[1..], id);
    }
  }

  /** An overtaken session answers neither a lookup nor a rotation, under any JTI and any claim. */
  lemma OvertakenIsUseless(store: Store, id: SessionId, command: Command)
    requires Overtaken(store, id)
    ensures Run(store, command).1 != Rotated(id)
    ensures !(Run(store, command).1.Found? && Run(store, command).1.session == id)
  {
  }

  /** A block fails exactly when an unblocked user has used up the generations;
      otherwise it overtakes every session of the user, indexed or not. */
  lemma BlockOvertakes(store: Store, user: UserId)
    requires Ordered(store)
    ensures Run(store, Block(user)).1.Failed?
       <==> user in store.access && !store.access[user].blocked
            && store.access[user].generation == MAX_SAFE_GENERATION
    ensures !Run(store, Block(user)).1.Failed? ==>
              var after := Run(store, Block(user)).0;
              && user in after.access && after.access[user].blocked
              && forall id :: id in store.sessions && store.sessions[id].user == user ==> Overtaken(after, id)
  {
    var after := Run(store, Block(user)).0;
    forall id | id in store.sessions && store.sessions[id].user == user && !Run(store, Block(user)).1.Failed?
      ensures Overtaken(after, id)
    {
      assert WithinGeneration(store, id);
    }
  }

  /** A session alive when a block takes effect never validates and never rotates
      again, however many unblocks, logins and expiries follow. */
  lemma RevokedForever(store: Store, user: UserId, id: SessionId, commands: seq<Command>, last: Command)
    requires Ordered(store)
    requires id in store.sessions && store.sessions[id].user == user
    requires !Run(store, Block(user)).1.Failed?
    requires forall command :: command in commands ==> !Creates(command, id)
    ensures var later := RunAll(Run(store, Block(user)).0, commands);
            && Run(later, last).1 != Rotated(id)
            && !(Run(later, last).1.Found? && Run(later, last).1.session == id)
  {
    RunKeepsOrder(store, Block(user));
    BlockOvertakes(store, user);
    OvertakenForever(Run(store, Block(user)).0, commands, id);
    OvertakenIsUseless(RunAll(Run(store, Block(user)).0, commands), id, last);
  }

  /** A repeated block changes no access state; an unblock keeps the generation. */
  lemma BlockIsIdempotent(store: Store, user: UserId)
    requires Ordered(store) && !Run(store, Block(user)).1.Failed?
    ensures var once := Run(store, Block(user)).0;
            && Run(once, Block(user)).0 == once
            && !Run(once, Block(user)).1.Failed?
            && Run(once, Unblock(user)).0.access[user] == Access(false, once.access[user].generation)
  {
    RunKeepsOrder(store, Block(user));
    var once := Run(store, Block(user)).0;
    var twice := Run(once, Block(user)).0;
    assert Indexed(once, user) == {};
    assert OwnedAmong(once, user, {}) == {};
    assert Revoke(once, {}).sessions == once.sessions;
    assert Revoke(once, {}).pointers == once.pointers;
    assert twice.access == once.access;
    assert twice.index == once.index;
  }

  /** Deleting all sessions leaves exactly the ones the index had lost. */
  lemma DeleteAllLeavesOnlyUnindexed(store: Store, user: UserId, id: SessionId)
    ensures id in Run(store, DeleteAll(user)).0.sessions
       <==> id in store.sessions && !(store.sessions[id].user == user && id in Indexed(store, user))
  {
  }
}
