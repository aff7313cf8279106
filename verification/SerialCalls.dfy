/** Calls that run alone: every call ends, and its completed run is a function of the stores. */
module SerialCalls {
  import opened Domain
  import SessionStore
  import opened AccountStore
  import opened UseCases

  /** How many commands a call can still run. */
  function Rank(call: Call): nat {
    match call
    case LoginLookup(_) => 4
    case LoginConfirm(_, _) => 3
    case LoginCreate(_) => 2
    case RefreshFind(_) => 3
    case RefreshConfirm(_) => 2
    case StatusSnapshot(_, _, _) => 4
    case StatusBlock(_, _, _) => 3
    case StatusUnblock(_, _, _) => 3
    case StatusWrite(_, _, _) => 2
    case RoleSnapshot(_, _, _) => 3
    case RoleWrite(_, _, _, _) => 2
    case PasswordLookup(_, _) => 3
    case PasswordWrite(_, _) => 2
    case DeleteLookup(_) => 3
    case DeleteBlock(_) => 2
    case _ => if Next(call).Finished? then 0 else 1
  }

  lemma PerformDescends(stores: Stores, call: Call, fault: Fault, choice: Choice)
    requires !Next(call).Finished?
    ensures Rank(Perform(stores, call, fault, choice).1) < Rank(call)
  {
    match Next(call)
    case Sql(query) => AnswerDescends(call, RunQuery(stores.rows, query).1, choice);
    case Redis(command) => ReplyDescends(call, SessionStore.Run(stores.redis, command).1, choice);
  }

  lemma AnswerDescends(call: Call, answer: Answer, choice: Choice)
    requires Next(call).Sql?
    ensures Rank(OnAnswer(call, answer, choice)) < Rank(call)
  {
  }

  lemma ReplyDescends(call: Call, reply: SessionStore.Reply, choice: Choice)
    requires Next(call).Redis?
    ensures Rank(OnReply(call, reply, choice)) < Rank(call)
  {
  }

  /** A call that runs alone and meets no failure. */
  function Complete(stores: Stores, call: Call, choice: Choice): (Stores, Call)
    decreases Rank(call)
  {
    if Next(call).Finished? then (stores, call)
    else
      PerformDescends(stores, call, Acknowledged, choice);
      var (after, moved) := Perform(stores, call, Acknowledged, choice);
      Complete(after, moved, choice)
  }

  lemma CompleteUnfolds(stores: Stores, call: Call, choice: Choice)
    requires !Next(call).Finished?
    ensures var (after, moved) := Perform(stores, call, Acknowledged, choice);
            Complete(stores, call, choice) == Complete(after, moved, choice)
  {
  }

  lemma Continues(stores: Stores, call: Call, after: Stores, moved: Call, choice: Choice)
    requires !Next(call).Finished? && Perform(stores, call, Acknowledged, choice) == (after, moved)
    ensures Complete(stores, call, choice) == Complete(after, moved, choice)
  {
  }

  lemma Ends(stores: Stores, call: Call, after: Stores, ended: Call, choice: Choice)
    requires !Next(call).Finished? && Next(ended).Finished?
    requires Perform(stores, call, Acknowledged, choice) == (after, ended)
    ensures Complete(stores, call, choice) == (after, ended)
  {
  }

  // ----- runs of a lone call, command by command -----

  predicate StepAt(trace: seq<(Stores, Call)>, i: nat, choice: Choice)
    requires i + 1 < |trace|
  {
    !Next(trace[i].1).Finished? && trace[i + 1] == Perform(trace[i].0, trace[i].1, Acknowledged, choice)
  }

  ghost predicate IsTrace(trace: seq<(Stores, Call)>, choice: Choice) {
    trace != [] && forall i: nat :: i + 1 < |trace| ==> StepAt(trace, i, choice)
  }

  /** The call, alone and without failures, gets from one pair of stores and state to another. */
  ghost predicate Reaches(stores: Stores, call: Call, after: Stores, moved: Call, choice: Choice) {
    exists trace :: Connects(trace, stores, call, after, moved, choice)
  }

  ghost predicate Connects(
    trace: seq<(Stores, Call)>, stores: Stores, call: Call, after: Stores, moved: Call, choice: Choice
  ) {
    IsTrace(trace, choice) && trace[0] == (stores, call) && trace[|trace| - 1] == (after, moved)
  }

  /** Alone and without failures, the call ends in `result`. */
  ghost predicate CompletesAs(stores: Stores, call: Call, after: Stores, result: Call, choice: Choice) {
    Reaches(stores, call, after, result, choice) && Next(result).Finished?
  }

  lemma ReachesItself(stores: Stores, call: Call, choice: Choice)
    ensures Reaches(stores, call, stores, call, choice)
  {
    assert Connects([(stores, call)], stores, call, stores, call, choice);
  }

  lemma ReachesNext(stores: Stores, call: Call, after: Stores, moved: Call, choice: Choice)
    requires Reaches(stores, call, after, moved, choice) && !Next(moved).Finished?
    ensures var (next, last) := Perform(after, moved, Acknowledged, choice);
            Reaches(stores, call, next, last, choice)
  {
    var trace :| Connects(trace, stores, call, after, moved, choice);
    var longer := trace + [Perform(after, moved, Acknowledged, choice)];
    forall i: nat | i + 1 < |longer| ensures StepAt(longer, i, choice) {
      if i + 1 < |trace| {
        assert StepAt(trace, i, choice);
      }
    }
    var (next, last) := Perform(after, moved, Acknowledged, choice);
    assert Connects(longer, stores, call, next, last, choice);
  }

  /** A lone call continues with the answer to its statement. */
  lemma AfterSql(stores: Stores, call: Call, after: Stores, moved: Call, choice: Choice)
    requires Reaches(stores, call, after, moved, choice) && Next(moved).Sql?
    ensures var (rows, answer) := RunQuery(after.rows, Next(moved).query);
            Reaches(stores, call, after.(rows := rows), OnAnswer(moved, answer, choice), choice)
  {
    ReachesNext(stores, call, after, moved, choice);
  }

  /** A lone call continues with the reply to its script. */
  lemma AfterRedis(stores: Stores, call: Call, after: Stores, moved: Call, choice: Choice)
    requires Reaches(stores, call, after, moved, choice) && Next(moved).Redis?
    ensures var (redis, reply) := SessionStore.Run(after.redis, Next(moved).command);
            Reaches(stores, call, after.(redis := redis), OnReply(moved, reply, choice), choice)
  {
    ReachesNext(stores, call, after, moved, choice);
  }

  function StatusResult(user: UserId, requested: UserStatus, outcome: UpdateOutcome<UserStatus>): Call {
    match outcome
    case Applied(_) => StatusChanged(user, requested)
    case AlreadyApplied(_) => StatusChanged(user, requested)
    case Conflict(_) => Failure(InvalidTransition)
    case RowMissing => Failure(UserNotFound)
    case Broken => Failure(Internal)
  }

  /** The compare-and-set and the select that explains a miss end a lone ChangeStatus. */
  lemma AfterStatusWrite(stores: Stores, call: Call, after: Stores, user: UserId, current: UserStatus,
                         requested: UserStatus, choice: Choice)
    requires Reaches(stores, call, after, StatusWrite(user, current, requested), choice)
    ensures Reaches(stores, call, after.(rows := StatusUpdate(after.rows, user, current, requested).0),
                    StatusResult(user, requested, StatusUpdate(after.rows, user, current, requested).1), choice)
  {
    AfterSql(stores, call, after, StatusWrite(user, current, requested), choice);
    if RunQuery(after.rows, CasStatus(user, current, requested)).1.NoRow? {
      AfterSql(stores, call, after, StatusMiss(user, current, requested), choice);
    }
  }

  function RoleResult(user: UserId, requested: UserRole, outcome: UpdateOutcome<UserRole>): Call {
    match outcome
    case Applied(_) => RoleChanged(user, requested)
    case AlreadyApplied(_) => RoleChanged(user, requested)
    case Conflict(_) => Failure(ConcurrentRoleChange)
    case RowMissing => Failure(UserNotFound)
    case Broken => Failure(Internal)
  }

  lemma AfterRoleWrite(stores: Stores, call: Call, after: Stores, user: UserId, actor: UserRole, expected: UserRole,
                       requested: UserRole, choice: Choice)
    requires expected.IsKnown() && requested.IsKnown()
    requires Reaches(stores, call, after, RoleWrite(user, actor, expected, requested), choice)
    ensures Reaches(stores, call, after.(rows := RoleUpdate(after.rows, user, expected, requested).0),
                    RoleResult(user, requested, RoleUpdate(after.rows, user, expected, requested).1), choice)
  {
    AfterSql(stores, call, after, RoleWrite(user, actor, expected, requested), choice);
    if RunQuery(after.rows, CasRole(user, expected, requested)).1.NoRow? {
      AfterSql(stores, call, after, RoleMiss(user, actor, expected, requested), choice);
    }
  }

  lemma {:induction false} TraceCompletes(trace: seq<(Stores, Call)>, choice: Choice)
    requires IsTrace(trace, choice) && Next(trace[|trace| - 1].1).Finished?
    ensures Complete(trace[0].0, trace[0].1, choice) == trace[|trace| - 1]
    decreases |trace|
  {
    if |trace| > 1 {
      assert StepAt(trace, 0, choice);
      forall i: nat | i + 1 < |trace[1..]| ensures StepAt(trace[1..], i, choice) {
        assert StepAt(trace, i + 1, choice);
      }
      CompleteUnfolds(trace[0].0, trace[0].1, choice);
      TraceCompletes(trace[1..], choice);
    }
  }

  /** A finished state that a lone call reaches is the one its completed run ends in. */
  lemma ReachedEndIsCompletion(stores: Stores, call: Call, after: Stores, moved: Call, choice: Choice)
    requires CompletesAs(stores, call, after, moved, choice)
    ensures Complete(stores, call, choice) == (after, moved)
  {
    var trace :| Connects(trace, stores, call, after, moved, choice);
    TraceCompletes(trace, choice);
  }
}
