/** Status changes that are cut off between the two stores: what they can leave
    behind, and how repeating the requests repairs it. */
module StatusRecovery {
  import opened Domain
  import opened SessionStore
  import AccountStore
  import opened UseCases
  import opened Protocol
  import opened ProtocolInvariant
  import SessionGenerations
  import opened SerialCalls
  import opened SessionLaws
  import opened Outcomes

  /** A call that runs alone, meets the given fate at each command, and is cut off when the list ends. */
  function CutOff(stores: Stores, call: Call, fates: seq<Fault>, choice: Choice): (Stores, Call)
    decreases |fates|
  {
    if fates == [] then (stores, call)
    else
      var (after, moved) := Perform(stores, call, fates[0], choice);
      CutOff(after, moved, fates[1..], choice)
  }

  predicate ActiveAndUnblocked(stores: Stores, user: UserId) {
    && user in stores.rows && stores.rows[user].status == Active
    && (user in stores.redis.access ==> !stores.redis.access[user].blocked)
  }

  predicate SuspendedAndUnblocked(stores: Stores, user: UserId) {
    && user in stores.rows && stores.rows[user].status == Suspended
    && (user in stores.redis.access ==> !stores.redis.access[user].blocked)
  }

  // ----- a suspension cut off anywhere -----

  /** What a lone ChangeStatus call maintains between its commands. */
  predicate SafelySuspending(stores: Stores, call: Call, user: UserId) {
    match call
    case StatusSnapshot(u, _, status) => u == user && status != Active && !SuspendedAndUnblocked(stores, user)
    case StatusBlock(u, current, status) => u == user && status == Suspended && !SuspendedAndUnblocked(stores, user)
    case StatusWrite(u, _, status) =>
      u == user && status == Suspended && user in stores.redis.access && stores.redis.access[user].blocked
    case StatusMiss(u, _, status) => u == user && status == Suspended && !SuspendedAndUnblocked(stores, user)
    case StatusChanged(_, _) => !SuspendedAndUnblocked(stores, user)
    case Failure(_) => !SuspendedAndUnblocked(stores, user)
    case _ => false
  }

  lemma SuspendingStep(stores: Stores, call: Call, fault: Fault, choice: Choice, user: UserId)
    requires SafelySuspending(stores, call, user)
    ensures var (after, moved) := Perform(stores, call, fault, choice); SafelySuspending(after, moved, user)
  {
    if call.StatusBlock? {
      BlockingStep(stores, call, fault, choice, user);
    }
  }

  lemma BlockingStep(stores: Stores, call: Call, fault: Fault, choice: Choice, user: UserId)
    requires SafelySuspending(stores, call, user) && call.StatusBlock?
    ensures var (after, moved) := Perform(stores, call, fault, choice); SafelySuspending(after, moved, user)
  {
    assert Run(stores.redis, Block(user)) == BlockAndDeleteAll(stores.redis, user);
  }

  /** A request to suspend, cut off at any command and with any failures, never itself
      leaves a suspended account unblocked. */
  lemma {:induction false} SuspensionLeavesBlocked(stores: Stores, call: Call, fates: seq<Fault>, choice: Choice, user: UserId)
    requires SafelySuspending(stores, call, user)
    ensures !SuspendedAndUnblocked(CutOff(stores, call, fates, choice).0, user)
    decreases |fates|
  {
    if fates != [] {
      SuspendingStep(stores, call, fates[0], choice, user);
      var (after, moved) := Perform(stores, call, fates[0], choice);
      SuspensionLeavesBlocked(after, moved, fates[1..], choice, user);
    }
  }

  // ----- recovery -----

  /** A suspended account has access state, because every suspension blocks first. */
  ghost predicate SuspendedHaveAccess(s: State) {
    && (forall user :: user in s.stores.rows && s.stores.rows[user].status == Suspended ==> user in s.stores.redis.access)
    && (forall i :: 0 <= i < |s.calls| && s.calls[i].StatusWrite? && s.calls[i].status == Suspended ==>
          s.calls[i].user in s.stores.redis.access)
  }

  lemma StepKeepsAccess(s: State, move: Move)
    requires Invariant(s) && SuspendedHaveAccess(s)
    ensures SuspendedHaveAccess(Step(s, move))
  {
    var after := Step(s, move);
    StepRedis(s, move);
    forall user | user in after.stores.rows && after.stores.rows[user].status == Suspended
      ensures user in after.stores.redis.access
    {
      if Statement(s, move).Some? {
        QueryEffect(s.stores.rows, Statement(s, move).value, user);
        assert CallOk(s, s.calls[move.id]);
      }
    }
    forall i | 0 <= i < |after.calls| && after.calls[i].StatusWrite? && after.calls[i].status == Suspended
      ensures after.calls[i].user in after.stores.redis.access
    {
      if move.Advance? && move.id == i {
        WriteAfterBlock(s.stores, s.calls[i], move.fault, ChoiceOf(s, move));
      }
    }
  }

  lemma WriteAfterBlock(stores: Stores, call: Call, fault: Fault, choice: Choice)
    requires CallIsStatusWrite(Perform(stores, call, fault, choice).1)
    ensures var (after, moved) := Perform(stores, call, fault, choice); moved.user in after.redis.access
  {
    if Next(call).Sql? {
      NoAnswerSuspends(call, AccountStore.RunQuery(stores.rows, Next(call).query).1, choice);
    }
  }

  /** The snapshot leads to a suspending write only through the block. */
  lemma NoAnswerSuspends(call: Call, answer: AccountStore.Answer, choice: Choice)
    requires Next(call).Sql?
    ensures !CallIsStatusWrite(OnAnswer(call, answer, choice))
  {
  }

  predicate CallIsStatusWrite(call: Call) {
    call.StatusWrite? && call.status == Suspended
  }

  lemma {:induction false} ReachableHaveAccess(s: State, moves: seq<Move>)
    requires Invariant(s) && SuspendedHaveAccess(s)
    ensures SuspendedHaveAccess(Exec(s, moves))
    decreases |moves|
  {
    if moves != [] {
      StepKeepsInvariant(s, moves[0]);
      StepKeepsAccess(s, moves[0]);
      ReachableHaveAccess(Step(s, moves[0]), moves[1..]);
    }
  }

  /** Everything recovery relies on. */
  ghost predicate Recoverable(stores: Stores, user: UserId) {
    && SessionGenerations.Ordered(stores.redis)
    && user in stores.rows && stores.rows[user].status.IsKnown()
    && (stores.rows[user].status == Suspended ==> user in stores.redis.access)
  }

  function Request(stores: Stores, user: UserId, actor: UserRole, status: UserStatus, choice: Choice): Stores {
    Complete(stores, StatusSnapshot(user, actor, status), choice).0
  }

  lemma ActivationResult(stores: Stores, user: UserId, actor: UserRole, choice: Choice)
    requires Recoverable(stores, user) && actor.CanModifyTargetRole(stores.rows[user].role)
    ensures Request(stores, user, actor, Active, choice)
         == Stores(stores.rows[user := stores.rows[user].(status := Active)],
                   if stores.rows[user].status == Suspended then Run(stores.redis, Unblock(user)).0 else stores.redis)
  {
    RankDecides(actor, stores.rows[user].role);
    match stores.rows[user].status
    case Active =>
      StatusUnchanged(stores, user, actor, Active, choice);
      assert stores.rows[user := stores.rows[user].(status := Active)] == stores.rows;
    case Inactive => Activation(stores, user, actor, choice);
    case Suspended =>
      Reactivation(stores, user, actor, choice);
      UnblockOpens(stores.redis, user);
  }

  lemma SuspensionResult(stores: Stores, user: UserId, actor: UserRole, choice: Choice)
    requires Recoverable(stores, user) && actor.CanModifyTargetRole(stores.rows[user].role)
    requires stores.rows[user].status == Active
    ensures Request(stores, user, actor, Suspended, choice)
         == if Run(stores.redis, Block(user)).1.Failed? then stores
            else Stores(stores.rows[user := stores.rows[user].(status := Suspended)], Run(stores.redis, Block(user)).0)
  {
    RankDecides(actor, stores.rows[user].role);
    Suspension(stores, user, actor, choice);
    BlockCloses(stores.redis, user);
  }

  /** One activation is enough exactly when the account is suspended or not blocked. */
  lemma OneActivationRecoversExactlyWhen(stores: Stores, user: UserId, actor: UserRole, choice: Choice)
    requires Recoverable(stores, user) && actor.CanModifyTargetRole(stores.rows[user].role)
    ensures ActiveAndUnblocked(Request(stores, user, actor, Active, choice), user)
       <==> stores.rows[user].status == Suspended
            || user !in stores.redis.access || !stores.redis.access[user].blocked
  {
    ActivationResult(stores, user, actor, choice);
  }

  /** A suspension that stopped between its block and its write. */
  function SuspensionCutOff(): seq<Move> {
    var go := Advance(0, Acknowledged, Local(true, true, true, true));
    [CreateAccount(0, Active, Client), Begin(StatusSnapshot(1, Admin, Suspended)), go, go]
  }

  /** It leaves the account active and blocked, which no single activation undoes. */
  lemma OneActivationMayNotRecover(choice: Choice)
    ensures var stores := Exec(Init(), SuspensionCutOff()).stores;
            && 1 in stores.rows && stores.rows[1].status == Active
            && 1 in stores.redis.access && stores.redis.access[1].blocked
            && !ActiveAndUnblocked(Request(stores, 1, Admin, Active, choice), 1)
  {
    var go := Advance(0, Acknowledged, Local(true, true, true, true));
    var s1 := Step(Init(), CreateAccount(0, Active, Client));
    var s2 := Step(s1, Begin(StatusSnapshot(1, Admin, Suspended)));
    var s3 := Step(s2, go);
    assert s3.calls == [StatusBlock(1, Active, Suspended)] && s3.stores == s1.stores;
    SuspensionBlocks(s3, go);
    assert Exec(Init(), SuspensionCutOff()) == Step(s3, go);
    ReachableInvariant(SuspensionCutOff());
    OneActivationRecoversExactlyWhen(Step(s3, go).stores, 1, Admin, choice);
  }

  lemma SuspensionBlocks(s: State, go: Move)
    requires s.calls == [StatusBlock(1, Active, Suspended)] && s.stores.redis == Empty()
    requires go.Advance? && go.id == 0 && go.fault.Acknowledged?
    ensures Step(s, go).stores.rows == s.stores.rows
    ensures Step(s, go).stores.redis.access == map[1 := Access(true, 1)]
  {
    assert Step(s, go).stores.redis == BlockAndDeleteAll(Empty(), 1).0;
  }

  lemma ActivatedIsRecoverable(stores: Stores, user: UserId, actor: UserRole, choice: Choice)
    requires Recoverable(stores, user) && actor.CanModifyTargetRole(stores.rows[user].role)
    ensures var once := Request(stores, user, actor, Active, choice);
            Recoverable(once, user) && once.rows[user] == stores.rows[user].(status := Active)
  {
    ActivationResult(stores, user, actor, choice);
    SessionGenerations.UnblockKeepsOrder(stores.redis, user);
  }

  /** A suspension that is refused finds the account unblocked; any other suspends it. */
  lemma SuspendedOrUnblocked(stores: Stores, user: UserId, actor: UserRole, choice: Choice)
    requires Recoverable(stores, user) && actor.CanModifyTargetRole(stores.rows[user].role)
    requires stores.rows[user].status == Active
    ensures var twice := Request(stores, user, actor, Suspended, choice);
            && Recoverable(twice, user) && twice.rows[user].role == stores.rows[user].role
            && (twice.rows[user].status == Suspended || (user in twice.redis.access && !twice.redis.access[user].blocked))
  {
    SuspensionResult(stores, user, actor, choice);
    SessionGenerations.BlockKeepsOrder(stores.redis, user);
  }

  /** Activate, suspend, activate: whatever was left behind, the account ends active and
      unblocked. It holds even when the generations are used up and the block is refused. */
  lemma ThreeRequestsRecover(stores: Stores, user: UserId, actor: UserRole, choice: Choice)
    requires Recoverable(stores, user) && actor.CanModifyTargetRole(stores.rows[user].role)
    ensures var once := Request(stores, user, actor, Active, choice);
            var twice := Request(once, user, actor, Suspended, choice);
            ActiveAndUnblocked(Request(twice, user, actor, Active, choice), user)
  {
    ActivatedIsRecoverable(stores, user, actor, choice);
    var once := Request(stores, user, actor, Active, choice);
    SuspendedOrUnblocked(once, user, actor, choice);
    OneActivationRecoversExactlyWhen(Request(once, user, actor, Suspended, choice), user, actor, choice);
  }

  /** From every reachable state of every run, whichever calls were cut off on the way. */
  lemma EveryAccountRecovers(moves: seq<Move>, user: UserId, actor: UserRole, choice: Choice)
    requires user in Exec(Init(), moves).stores.rows
    requires actor.CanModifyTargetRole(Exec(Init(), moves).stores.rows[user].role)
    ensures var once := Request(Exec(Init(), moves).stores, user, actor, Active, choice);
            var twice := Request(once, user, actor, Suspended, choice);
            ActiveAndUnblocked(Request(twice, user, actor, Active, choice), user)
  {
    InitInvariant();
    ReachableInvariant(moves);
    ReachableHaveAccess(Init(), moves);
    ThreeRequestsRecover(Exec(Init(), moves).stores, user, actor, choice);
  }
}
