/** Status and role histories over interleaved compare-and-set calls. */
module AccountHistory {
  import opened Domain
  import AccountStore
  import opened UseCases
  import opened Protocol
  import opened ProtocolInvariant

  // ----- statuses -----

  predicate StatusEdge(before: UserStatus, after: UserStatus) {
    before == after || (before.CanTransitionTo(after) && after != Inactive)
  }

  lemma StepStatus(s: State, move: Move, user: UserId)
    requires Invariant(s) && user in s.stores.rows && user in Step(s, move).stores.rows
    ensures StatusEdge(s.stores.rows[user].status, Step(s, move).stores.rows[user].status)
  {
    if Statement(s, move).Some? {
      QueryEffect(s.stores.rows, Statement(s, move).value, user);
      assert CallOk(s, s.calls[move.id]);
    }
  }

  /** The statuses of `user` at the successive states of a run in which the account exists. */
  function Statuses(s: State, moves: seq<Move>, user: UserId): seq<UserStatus>
    decreases |moves|
  {
    (if user in s.stores.rows then [s.stores.rows[user].status] else [])
    + if moves == [] then [] else Statuses(Step(s, moves[0]), moves[1..], user)
  }

  predicate IsPath(statuses: seq<UserStatus>) {
    forall k :: 0 <= k < |statuses| - 1 ==> StatusEdge(statuses[k], statuses[k + 1])
  }

  /** A deleted account never comes back. */
  lemma {:induction false} DeletedForGood(s: State, moves: seq<Move>, user: UserId)
    requires Invariant(s) && user !in s.stores.rows && user < s.nextUser
    ensures Statuses(s, moves, user) == []
    decreases |moves|
  {
    if moves != [] {
      StepKeepsInvariant(s, moves[0]);
      DeletedForGood(Step(s, moves[0]), moves[1..], user);
    }
  }

  lemma {:induction false} StatusesFormPath(s: State, moves: seq<Move>, user: UserId)
    requires Invariant(s)
    ensures IsPath(Statuses(s, moves, user))
    ensures user in s.stores.rows ==> Statuses(s, moves, user) != []
                                      && Statuses(s, moves, user)[0] == s.stores.rows[user].status
    decreases |moves|
  {
    if moves != [] {
      var next := Step(s, moves[0]);
      StepKeepsInvariant(s, moves[0]);
      StatusesFormPath(next, moves[1..], user);
      if user in s.stores.rows {
        if user in next.stores.rows {
          StepStatus(s, moves[0], user);
        } else {
          DeletedForGood(next, moves[1..], user);
        }
      }
    }
  }

  /** In every run each user's committed statuses form a path of the status graph. */
  lemma CommittedStatusesFormPath(moves: seq<Move>, user: UserId)
    ensures IsPath(Statuses(Init(), moves, user))
  {
    InitInvariant();
    StatusesFormPath(Init(), moves, user);
  }

  /** A path that has left the inactive status never enters it again. */
  lemma {:induction false} NeverInactiveAgain(statuses: seq<UserStatus>, i: nat, j: nat)
    requires IsPath(statuses) && i <= j < |statuses| && statuses[i] != Inactive
    ensures statuses[j] != Inactive
    decreases j - i
  {
    if i < j {
      assert StatusEdge(statuses[i], statuses[i + 1]);
      NeverInactiveAgain(statuses, i + 1, j);
    }
  }

  // ----- what success of ChangeStatus and ChangeRole means -----

  /** A pending ChangeStatus call of `user` to `status`. */
  predicate ChangingStatus(call: Call, user: UserId, status: UserStatus) {
    (call.StatusSnapshot? || call.StatusBlock? || call.StatusUnblock? || call.StatusWrite? || call.StatusMiss?)
    && call.user == user && call.status == status
  }

  predicate ChangingRole(call: Call, user: UserId, role: UserRole) {
    (call.RoleSnapshot? || call.RoleWrite? || call.RoleMiss?) && call.user == user && call.role == role
  }

  lemma SuccessIsCurrent(stores: Stores, call: Call, fault: Fault, choice: Choice)
    ensures var (after, moved) := Perform(stores, call, fault, choice);
            && (moved.StatusChanged? && !call.StatusChanged? ==>
                  ChangingStatus(call, moved.user, moved.status)
                  && moved.user in after.rows && after.rows[moved.user].status == moved.status)
            && (moved.RoleChanged? && !call.RoleChanged? ==>
                  ChangingRole(call, moved.user, moved.role)
                  && moved.user in after.rows && after.rows[moved.user].role == moved.role)
  {
    match Next(call)
    case Finished =>
    case Sql(query) => AnswerIsCurrent(stores.rows, call, choice);
    case Redis(command) =>
  }

  lemma AnswerIsCurrent(rows: AccountStore.Rows, call: Call, choice: Choice)
    requires Next(call).Sql?
    ensures var (after, answer) := AccountStore.RunQuery(rows, Next(call).query);
            var moved := OnAnswer(call, answer, choice);
            && (moved.StatusChanged? ==>
                  ChangingStatus(call, moved.user, moved.status)
                  && moved.user in after && after[moved.user].status == moved.status)
            && (moved.RoleChanged? ==>
                  ChangingRole(call, moved.user, moved.role)
                  && moved.user in after && after[moved.user].role == moved.role)
  {
  }

  /** Call `i` is pending in `before`, and has succeeded in `after` with the requested value stored. */
  predicate Succeeds(before: State, after: State, i: nat, success: Call) {
    && i < |before.calls| && i < |after.calls| && after.calls[i] == success
    && match success
       case StatusChanged(user, status) =>
         && ChangingStatus(before.calls[i], user, status)
         && user in after.stores.rows && after.stores.rows[user].status == status
       case RoleChanged(user, role) =>
         && ChangingRole(before.calls[i], user, role)
         && user in after.stores.rows && after.stores.rows[user].role == role
       case _ => false
  }

  lemma StepSucceeds(s: State, move: Move, i: nat)
    requires i < |Step(s, move).calls|
    requires Step(s, move).calls[i].StatusChanged? || Step(s, move).calls[i].RoleChanged?
    requires i < |s.calls| ==> s.calls[i] != Step(s, move).calls[i]
    ensures Succeeds(s, Step(s, move), i, Step(s, move).calls[i])
  {
    if move.Advance? && move.id < |s.calls| {
      StepPerforms(s, move);
      SuccessIsCurrent(s.stores, s.calls[move.id], move.fault, ChoiceOf(s, move));
    }
  }

  ghost predicate SucceedsAt(moves: seq<Move>, i: nat, k: nat, success: Call) {
    k < |moves| && Succeeds(Exec(Init(), moves[..k]), Exec(Init(), moves[..k + 1]), i, success)
  }

  /** A ChangeStatus or ChangeRole call that returned nil was, at some instant inside
      the call, looking at the stored value it had been asked for. */
  lemma {:induction false} SuccessWasCurrent(moves: seq<Move>, i: nat, success: Call)
    requires i < |Exec(Init(), moves).calls| && Exec(Init(), moves).calls[i] == success
    requires success.StatusChanged? || success.RoleChanged?
    ensures exists k: nat :: SucceedsAt(moves, i, k, success)
    decreases |moves|
  {
    assert moves != [];
    var n := |moves| - 1;
    var front := moves[..n];
    var s := Exec(Init(), front);
    assert moves == front + [moves[n]] && moves[..n + 1] == moves;
    ExecSnoc(Init(), front, moves[n]);
    if i < |s.calls| && s.calls[i] == success {
      SuccessWasCurrent(front, i, success);
      var k: nat :| SucceedsAt(front, i, k, success);
      assert moves[..k] == front[..k] && moves[..k + 1] == front[..k + 1];
      assert SucceedsAt(moves, i, k, success);
    } else {
      StepSucceeds(s, moves[n], i);
      assert SucceedsAt(moves, i, n, success);
    }
  }

  // ----- roles -----

  /** Every committed role change satisfied the actor's hierarchy against the role
      actually overwritten and against the role written. */
  lemma RoleChangesAuthorized(moves: seq<Move>, move: Move, user: UserId)
    requires var s := Exec(Init(), moves);
             user in s.stores.rows && user in Step(s, move).stores.rows
             && Step(s, move).stores.rows[user].role != s.stores.rows[user].role
    ensures var s := Exec(Init(), moves);
            && move.Advance? && move.id < |s.calls| && s.calls[move.id].RoleWrite?
            && var call := s.calls[move.id];
               && call.user == user
               && call.expected == s.stores.rows[user].role
               && call.role == Step(s, move).stores.rows[user].role
               && call.actor.CanModifyTargetRole(s.stores.rows[user].role)
               && call.actor.CanAssignRole(Step(s, move).stores.rows[user].role)
  {
    var s := Exec(Init(), moves);
    ReachableInvariant(moves);
    QueryEffect(s.stores.rows, Statement(s, move).value, user);
    assert CallOk(s, s.calls[move.id]);
  }

  predicate RoleActor(call: Call, actor: UserRole) {
    (call.RoleSnapshot? || call.RoleWrite? || call.RoleMiss?) && call.actor == actor
  }

  ghost predicate NoAdminActs(moves: seq<Move>) {
    forall move :: move in moves && move.Begin? ==> !RoleActor(move.call, Admin)
  }

  lemma NoAdminStep(s: State, move: Move, after: State)
    requires Invariant(s) && Transition(s, move, after) && (move.Begin? ==> !RoleActor(move.call, Admin))
    requires forall i :: 0 <= i < |s.calls| ==> !RoleActor(s.calls[i], Admin)
    ensures forall i :: 0 <= i < |after.calls| ==> !RoleActor(after.calls[i], Admin)
  {
    if move.Advance? && move.id < |s.calls| && RoleActor(after.calls[move.id], Admin) {
      RoleActorStays(s.stores, s.calls[move.id], after.calls[move.id], ChoiceOf(s, move));
    }
  }

  lemma RoleActorStays(stores: Stores, call: Call, moved: Call, choice: Choice)
    requires RoleActor(moved, Admin) && (Follows(stores, call, moved, choice) || moved == call)
    ensures RoleActor(call, Admin)
  {
  }

  lemma {:induction false} NoAdminCalls(s: State, moves: seq<Move>)
    requires Invariant(s) && NoAdminActs(moves)
    requires forall i :: 0 <= i < |s.calls| ==> !RoleActor(s.calls[i], Admin)
    ensures forall i :: 0 <= i < |Exec(s, moves).calls| ==> !RoleActor(Exec(s, moves).calls[i], Admin)
    decreases |moves|
  {
    if moves != [] {
      var after := Step(s, moves[0]);
      StepIsTransition(s, moves[0]);
      StepKeepsInvariant(s, moves[0]);
      NoAdminStep(s, moves[0], after);
      NoAdminCalls(after, moves[1..]);
    }
  }

  /** A run with no administrator acting changes no user's role at all. */
  lemma {:induction false} NoAdminNoRoleChange(first: seq<Move>, second: seq<Move>, user: UserId)
    requires NoAdminActs(first + second)
    requires user in Exec(Init(), first).stores.rows && user in Exec(Init(), first + second).stores.rows
    ensures Exec(Init(), first).stores.rows[user].role == Exec(Init(), first + second).stores.rows[user].role
    decreases |second|
  {
    if second == [] {
      assert first + second == first;
    } else {
      var n := |second|;
      var front := second[..n - 1];
      var last := second[n - 1];
      assert first + second == (first + front) + [last];
      var s := Exec(Init(), first + front);
      ExecSnoc(Init(), first + front, last);
      ReachableInvariant(first);
      ReachableInvariant(first + front);
      ExecConcat(Init(), first, front);
      ExecKeepsInvariant(Exec(Init(), first), front);
      StepKeepsInvariant(s, last);
      assert user in s.stores.rows;
      assert forall move :: move in first + front ==> move in first + second;
      NoAdminNoRoleChange(first, front, user);
      if Step(s, last).stores.rows[user].role != s.stores.rows[user].role {
        RoleChangesAuthorized(first + front, last, user);
        InitInvariant();
        NoAdminCalls(Init(), first + front);
      }
    }
  }
}
