/** Suspension and deletion as seen by sessions: a block revokes the sessions that
    exist for good, and shuts the user out until the next unblock. */
module Revocation {
  import opened Domain
  import opened SessionStore
  import AccountStore
  import opened UseCases
  import opened Protocol
  import opened ProtocolInvariant
  import opened SessionGenerations
  import opened CallHistories

  /** A session that has existed is never created again: no pending login plans its identifier. */
  lemma {:induction false} NeverCreatedAgain(s: State, moves: seq<Move>, id: SessionId)
    requires Invariant(s) && id in s.chains
    ensures forall command :: command in Effects(s, moves) ==> !Creates(command, id)
    decreases |moves|
  {
    if moves != [] {
      var move := moves[0];
      StepKeepsInvariant(s, move);
      if move.Advance? && move.id < |s.calls| {
        assert CallOk(s, s.calls[move.id]);
      }
      NeverCreatedAgain(Step(s, move), moves[1..], id);
    }
  }

  /** In any run, a session of `user` alive when a block takes effect answers no
      lookup and no rotation at any later moment, whatever calls are in flight. */
  lemma BlockedSessionsStayRevoked(before: seq<Move>, block: Move, after: seq<Move>,
                                   user: UserId, id: SessionId, command: Command)
    requires var s := Exec(Init(), before);
             && Effect(s, block) == Some(Block(user))
             && !Run(s.stores.redis, Block(user)).1.Failed?
             && id in s.stores.redis.sessions && s.stores.redis.sessions[id].user == user
    ensures var later := Exec(Init(), before + [block] + after);
            && Run(later.stores.redis, command).1 != Rotated(id)
            && !(Run(later.stores.redis, command).1.Found? && Run(later.stores.redis, command).1.session == id)
  {
    var s := Exec(Init(), before);
    ReachableInvariant(before);
    StepKeepsInvariant(s, block);
    ExecSnoc(Init(), before, block);
    ExecConcat(Init(), before + [block], after);
    NeverCreatedAgain(Step(s, block), after, id);
    ExecRunsEffects(Step(s, block), after);
    RevokedForever(s.stores.redis, user, id, Effects(Step(s, block), after), command);
  }

  // ----- what a successful deletion has done -----

  /** At move `k` the deletion call `i` blocks the user, and is told so. */
  ghost predicate DeletionBlocksAt(moves: seq<Move>, i: nat, k: nat, user: UserId) {
    && k < |moves| && moves[k].Advance? && moves[k].id == i && moves[k].fault.Acknowledged?
    && var s := Exec(Init(), moves[..k]);
       i < |s.calls| && s.calls[i] == DeleteBlock(user) && Run(s.stores.redis, Block(user)).1.Deleted?
  }

  /** The deletion of `user` has got past its block. */
  predicate PastBlock(call: Call, user: UserId) {
    call == DeleteRemove(user) || call == UserDeleted(user)
  }

  lemma BlockCrossing(s: State, move: Move, user: UserId)
    requires Crosses(s, move, call => PastBlock(call, user))
    ensures s.calls[move.id] == DeleteBlock(user) && move.fault.Acknowledged?
    ensures Run(s.stores.redis, Block(user)).1.Deleted?
  {
    ResumeCases(s, move);
    var call := s.calls[move.id];
    if Next(call).Sql? {
      DeletionAnswers(call, AccountStore.RunQuery(s.stores.rows, Next(call).query).1, ChoiceOf(s, move), user);
    } else if Next(call).Redis? {
      DeletionReplies(call, Run(s.stores.redis, Next(call).command).1, ChoiceOf(s, move), user);
    }
  }

  lemma DeletionAnswers(call: Call, answer: AccountStore.Answer, choice: Choice, user: UserId)
    requires Next(call).Sql? && !PastBlock(call, user)
    ensures !PastBlock(OnAnswer(call, answer, choice), user)
  {
  }

  lemma DeletionReplies(call: Call, reply: Reply, choice: Choice, user: UserId)
    requires Next(call).Redis?
    ensures PastBlock(OnReply(call, reply, choice), user) ==> call == DeleteBlock(user) && reply.Deleted?
  {
  }

  /** A deletion that got past its block performed it inside the call. */
  lemma DeletionBlocked(moves: seq<Move>, i: nat, user: UserId)
    requires i < |Exec(Init(), moves).calls| && PastBlock(Exec(Init(), moves).calls[i], user)
    ensures exists k: nat :: DeletionBlocksAt(moves, i, k, user)
  {
    var passed := (call: Call) => PastBlock(call, user);
    PassedByCrossing(moves, i, passed);
    var k: nat :| CrossesAt(moves, i, k, passed);
    BlockCrossing(Exec(Init(), moves[..k]), moves[k], user);
    assert DeletionBlocksAt(moves, i, k, user);
  }

  /** The sessions of `user` in `before` answer no lookup and no rotation in `later`. */
  ghost predicate AllRevoked(before: Store, later: Store, user: UserId) {
    forall id, command | id in before.sessions && before.sessions[id].user == user
      :: Run(later, command).1 != Rotated(id) && !(Run(later, command).1.Found? && Run(later, command).1.session == id)
  }

  ghost predicate DeletionRevokesAt(moves: seq<Move>, more: seq<Move>, i: nat, k: nat, user: UserId) {
    && DeletionBlocksAt(moves, i, k, user)
    && AllRevoked(Exec(Init(), moves[..k]).stores.redis, Exec(Init(), moves + more).stores.redis, user)
  }

  /** When DeleteUser has returned nil, there was a moment inside the call such that
      every session of the user alive then is useless from now on. */
  lemma DeletedUsersSessionsAreGone(moves: seq<Move>, more: seq<Move>, i: nat, user: UserId)
    requires i < |Exec(Init(), moves).calls| && Exec(Init(), moves).calls[i] == UserDeleted(user)
    ensures exists k: nat :: DeletionRevokesAt(moves, more, i, k, user)
  {
    DeletionBlocked(moves, i, user);
    var k: nat :| DeletionBlocksAt(moves, i, k, user);
    var before, rest := moves[..k], moves[k + 1..] + more;
    RunSplits(moves, more, k);
    BlockRevokesAll(before, moves[k], rest, user);
    assert DeletionRevokesAt(moves, more, i, k, user);
  }

  lemma BlockRevokesAll(before: seq<Move>, block: Move, after: seq<Move>, user: UserId)
    requires Effect(Exec(Init(), before), block) == Some(Block(user))
    requires !Run(Exec(Init(), before).stores.redis, Block(user)).1.Failed?
    ensures AllRevoked(Exec(Init(), before).stores.redis, Exec(Init(), before + [block] + after).stores.redis, user)
  {
    var alive := Exec(Init(), before).stores.redis.sessions;
    forall id, command | id in alive && alive[id].user == user
      ensures var reply := Run(Exec(Init(), before + [block] + after).stores.redis, command).1;
              reply != Rotated(id) && !(reply.Found? && reply.session == id)
    {
      BlockedSessionsStayRevoked(before, block, after, user, id, command);
    }
  }

  // ----- a session outside its index -----

  const GO := Advance(0, Acknowledged, Local(true, true, true, true))

  /** A login, up to the creation of its session. */
  function LoginSteps(): seq<Move> {
    [CreateAccount(0, Active, Client), Begin(LoginLookup(1)), GO, GO]
  }

  /** The login ends, and the index expires before its session. */
  function LoginThenIndexExpires(): seq<Move> {
    LoginSteps() + [GO] + [Expire(ExpireIndex(1))]
  }

  lemma LoginReachesCreate()
    ensures Exec(Init(), LoginSteps()).calls == [LoginCreate(Token(1, 4, 3, 1))]
    ensures Exec(Init(), LoginSteps()).stores.redis == Empty()
  {
    var s1 := Step(Init(), CreateAccount(0, Active, Client));
    var s2 := Step(s1, Begin(LoginLookup(1)));
    var s3 := Step(s2, GO);
    assert s3.calls == [LoginConfirm(1, AccountStore.Row(0, Active, Client, 1))] && s3.nextId == 3;
    assert Exec(Init(), LoginSteps()) == Step(s3, GO);
  }

  lemma LoginStores(s: State)
    requires s.calls == [LoginCreate(Token(1, 4, 3, 1))] && s.stores.redis == Empty()
    ensures Step(s, GO).stores.redis.sessions == map[4 := Session(1, 3, 1, 1)]
  {
    assert Step(s, GO).stores.redis == CreateSession(Empty(), 4, 1, 3, 1).0;
  }

  lemma IndexExpires(moves: seq<Move>, user: UserId)
    ensures var before := Exec(Init(), moves).stores.redis;
            var after := Exec(Init(), moves + [Expire(ExpireIndex(user))]).stores.redis;
            after.sessions == before.sessions && Indexed(after, user) == {}
  {
    ExecSnoc(Init(), moves, Expire(ExpireIndex(user)));
  }

  /** Deleting all sessions of the user then leaves the session of that login stored. */
  lemma SessionOutsideIndexSurvives()
    ensures var redis := Exec(Init(), LoginThenIndexExpires()).stores.redis;
            && redis.sessions.Keys == {4} && redis.sessions[4].user == 1 && Indexed(redis, 1) == {}
            && 4 in Run(redis, DeleteAll(1)).0.sessions
  {
    LoginReachesCreate();
    LoginStores(Exec(Init(), LoginSteps()));
    ExecSnoc(Init(), LoginSteps(), GO);
    IndexExpires(LoginSteps() + [GO], 1);
    DeleteAllLeavesOnlyUnindexed(Exec(Init(), LoginThenIndexExpires()).stores.redis, 1, 4);
  }

  // ----- the window between a block and the next unblock -----

  predicate IsBlocked(store: Store, user: UserId) {
    user in store.access && store.access[user].blocked
  }

  /** The stored sessions of `user` are among the earlier ones, record for record. */
  ghost predicate OnlyEnds(before: Store, after: Store, user: UserId) {
    forall id :: id in after.sessions && after.sessions[id].user == user ==>
      id in before.sessions && after.sessions[id] == before.sessions[id]
  }

  lemma BlockedStep(store: Store, command: Command, user: UserId)
    requires Ordered(store) && IsBlocked(store, user) && command != Unblock(user)
    ensures IsBlocked(Run(store, command).0, user)
    ensures OnlyEnds(store, Run(store, command).0, user)
  {
    forall id | id in Run(store, command).0.sessions && Run(store, command).0.sessions[id].user == user
      ensures id in store.sessions && Run(store, command).0.sessions[id] == store.sessions[id]
    {
      SessionEffect(store, command, id);
    }
  }

  lemma {:induction false} BlockedRun(store: Store, commands: seq<Command>, user: UserId)
    requires Ordered(store) && IsBlocked(store, user) && Unblock(user) !in commands
    ensures IsBlocked(RunAll(store, commands), user)
    ensures OnlyEnds(store, RunAll(store, commands), user)
    decreases |commands|
  {
    if commands != [] {
      BlockedStep(store, commands[0], user);
      RunKeepsOrder(store, commands[0]);
      BlockedRun(Run(store, commands[0]).0, commands[1..], user);
    }
  }

  /** While a user is blocked every script that would admit the user refuses. */
  lemma BlockedRefuses(store: Store, user: UserId, command: Command)
    requires Ordered(store) && IsBlocked(store, user)
    ensures command.Create? && command.user == user ==> !Run(store, command).1.Created?
    ensures command.Find? && command.user == user ==> !Run(store, command).1.Found?
    ensures command.Rotate? && command.user == user ==> !Run(store, command).1.Rotated?
    ensures (Run(store, command).1.Found? || Run(store, command).1.Rotated?) ==>
              var id := Run(store, command).1.session;
              id in store.sessions && store.sessions[id].user != user
  {
  }

  /** From a block to the next unblock, no session of the user is created, rotated or validated. */
  lemma ShutOutUntilUnblock(before: seq<Move>, block: Move, after: seq<Move>, user: UserId, command: Command)
    requires Effect(Exec(Init(), before), block) == Some(Block(user))
    requires !Run(Exec(Init(), before).stores.redis, Block(user)).1.Failed?
    requires Unblock(user) !in Effects(Step(Exec(Init(), before), block), after)
    ensures var blocked := Step(Exec(Init(), before), block).stores.redis;
            var later := Exec(Init(), before + [block] + after).stores.redis;
            && IsBlocked(later, user)
            && OnlyEnds(blocked, later, user)
            && (command.Create? && command.user == user ==> !Run(later, command).1.Created?)
            && (command.Find? && command.user == user ==> !Run(later, command).1.Found?)
            && (command.Rotate? && command.user == user ==> !Run(later, command).1.Rotated?)
            && (Run(later, command).1.Found? || Run(later, command).1.Rotated? ==>
                  later.sessions[Run(later, command).1.session].user != user)
  {
    var s := Exec(Init(), before);
    ReachableInvariant(before);
    StepKeepsInvariant(s, block);
    ExecSnoc(Init(), before, block);
    ExecConcat(Init(), before + [block], after);
    ExecRunsEffects(Step(s, block), after);
    BlockOvertakes(s.stores.redis, user);
    BlockedRun(Step(s, block).stores.redis, Effects(Step(s, block), after), user);
    ExecKeepsInvariant(Step(s, block), after);
    BlockedRefuses(Exec(Step(s, block), after).stores.redis, user, command);
  }
}
