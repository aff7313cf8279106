/** What every step of every call keeps. */
module ProtocolInvariant {
  import opened Domain
  import opened SessionStore
  import opened AccountStore
  import opened UseCases
  import opened Protocol
  import opened SessionGenerations

  // ----- what one command can do -----

  /** A row is created, kept, or rewritten; its version only grows, and its digest
      changes only together with the version. */
  predicate RowGrows(before: Row, after: Row) {
    before.version <= after.version && (before.version == after.version ==> before.digest == after.digest)
  }

  lemma QueryEffect(rows: Rows, query: Query, user: UserId)
    requires user in RunQuery(rows, query).0
    ensures user in rows && RowGrows(rows[user], RunQuery(rows, query).0[user])
    ensures RunQuery(rows, query).0[user].status != rows[user].status ==>
              query == CasStatus(user, rows[user].status, RunQuery(rows, query).0[user].status)
    ensures RunQuery(rows, query).0[user].role != rows[user].role ==>
              query == CasRole(user, rows[user].role, RunQuery(rows, query).0[user].role)
  {
  }

  // ----- the invariant -----

  predicate Last(chain: seq<Jti>, jti: Jti) {
    chain != [] && chain[|chain| - 1] == jti
  }

  /** `jti` has never been the current JTI of any session. */
  ghost predicate Unused(s: State, jti: Jti) {
    forall id, k :: id in s.chains && 0 <= k < |s.chains[id]| ==> s.chains[id][k] != jti
  }

  /** `renewed` directly follows `old` in the chain of its session. */
  ghost predicate Linked(s: State, id: SessionId, prior: Jti, renewed: Jti) {
    id in s.chains && exists k: nat :: LinkedAt(s.chains[id], k, prior, renewed)
  }

  predicate LinkedAt(chain: seq<Jti>, k: nat, prior: Jti, renewed: Jti) {
    k + 1 < |chain| && chain[k] == prior && chain[k + 1] == renewed
  }

  ghost predicate TokenOk(s: State, token: Token) {
    && token.user < s.nextUser && token.session < s.nextId && token.jti < s.nextId
    && 1 <= token.version
    && (token.user in s.stores.rows ==> token.version <= s.stores.rows[token.user].version)
  }

  predicate Renews(token: Token, renewed: Token) {
    renewed == token.(jti := renewed.jti)
  }

  ghost predicate CallOk(s: State, call: Call) {
    match call
    case LoginConfirm(user, seen) =>
      user < s.nextUser && 1 <= seen.version && (user in s.stores.rows ==> RowGrows(seen, s.stores.rows[user]))
    case LoginCreate(t) => t in s.minted && t.session == t.jti + 1 && t.session !in s.chains && Unused(s, t.jti)
    case RefreshFind(t) => t in s.minted
    case RefreshConfirm(t) => t in s.minted
    case RefreshRotate(t, renewed) =>
      t in s.minted && renewed in s.minted && Renews(t, renewed) && Unused(s, renewed.jti)
    case Refreshed(t, renewed) => Renews(t, renewed) && renewed.jti < s.nextId && Linked(s, t.session, t.jti, renewed.jti)
    case StatusBlock(_, current, status) => current == Active && status == Suspended
    case StatusUnblock(_, current, status) => current == Suspended && status == Active
    case StatusWrite(_, current, status) => current != status && current.CanTransitionTo(status)
    case RoleWrite(_, actor, expected, role) => AuthorizesRoleMutation(actor, expected, role)
    case _ => true
  }

  /** The JTI that a call drew for itself and has put, or may still put, on a chain. */
  function Owns(call: Call): Option<Jti> {
    match call
    case LoginCreate(t) => Some(t.jti)
    case RefreshRotate(_, renewed) => Some(renewed.jti)
    case Refreshed(_, renewed) => Some(renewed.jti)
    case _ => None
  }

  ghost predicate OwnershipDistinct(s: State) {
    forall i, j :: 0 <= i < j < |s.calls| && Owns(s.calls[i]).Some? ==> Owns(s.calls[i]) != Owns(s.calls[j])
  }

  ghost predicate OwnershipDrawn(s: State) {
    forall i :: 0 <= i < |s.calls| && Owns(s.calls[i]).Some? ==> Owns(s.calls[i]).value < s.nextId
  }

  ghost predicate RowsOk(s: State) {
    forall user :: user in s.stores.rows ==>
      user < s.nextUser && 1 <= s.stores.rows[user].version
      && s.stores.rows[user].status.IsKnown() && s.stores.rows[user].role.IsKnown()
  }

  ghost predicate ChainsDrawn(s: State) {
    forall id :: id in s.chains ==>
      id < s.nextId && s.chains[id] != [] && forall k :: 0 <= k < |s.chains[id]| ==> s.chains[id][k] < s.nextId
  }

  /** No JTI is ever carried twice, by one session or by two. */
  ghost predicate ChainsDistinct(s: State) {
    forall a, i, b, j
      | a in s.chains && b in s.chains && 0 <= i < |s.chains[a]| && 0 <= j < |s.chains[b]|
        && s.chains[a][i] == s.chains[b][j]
      :: a == b && i == j
  }

  /** The current JTI of a stored session is the last of its chain. */
  ghost predicate SessionsChained(s: State) {
    forall id :: id in s.stores.redis.sessions ==>
      id in s.chains && Last(s.chains[id], s.stores.redis.sessions[id].jti)
  }

  ghost predicate TokensOk(s: State) {
    forall token :: token in s.minted ==> TokenOk(s, token)
  }

  ghost predicate CallsOk(s: State) {
    forall i :: 0 <= i < |s.calls| ==> CallOk(s, s.calls[i])
  }

  ghost predicate Invariant(s: State) {
    && Ordered(s.stores.redis)
    && RowsOk(s)
    && TokensOk(s)
    && CallsOk(s)
    && OwnershipDistinct(s)
    && OwnershipDrawn(s)
    && ChainsDrawn(s)
    && ChainsDistinct(s)
    && SessionsChained(s)
  }

  /** What never goes back from one state to a later one. */
  ghost predicate Grows(s: State, later: State) {
    && s.nextId <= later.nextId && s.nextUser <= later.nextUser
    && |s.calls| <= |later.calls|
    && s.minted <= later.minted
    && Advances(s.stores.redis, later.stores.redis)
    && (forall user :: user in later.stores.rows ==>
          if user in s.stores.rows then RowGrows(s.stores.rows[user], later.stores.rows[user]) else user >= s.nextUser)
    && (forall id :: id in s.chains ==> id in later.chains && s.chains[id] <= later.chains[id])
  }

  // ----- what one step can do -----

  /** How a call moves: which states lead where, and what the answer must have been. */
  predicate Follows(stores: Stores, call: Call, moved: Call, choice: Choice) {
    match moved
    case LoginConfirm(user, seen) => call == LoginLookup(user) && user in stores.rows && seen == stores.rows[user]
    case LoginCreate(t) =>
      && call.LoginConfirm? && call.user in stores.rows
      && call.seen.version == stores.rows[call.user].version == t.version
      && t == Token(call.user, choice.session, choice.jti, t.version)
    case RefreshConfirm(t) => call == RefreshFind(t)
    case RefreshRotate(t, renewed) =>
      && call == RefreshConfirm(t) && renewed == t.(jti := choice.jti)
      && t.user in stores.rows && stores.rows[t.user].version == t.version
    case Refreshed(t, renewed) => call == RefreshRotate(t, renewed)
    case StatusBlock(_, current, status) => call.StatusSnapshot? && current == Active && status == Suspended
    case StatusUnblock(_, current, status) => call.StatusSnapshot? && current == Suspended && status == Active
    case StatusWrite(user, current, status) =>
      || (call.StatusSnapshot? && current == Inactive && status == Active)
      || call == StatusBlock(user, current, status)
      || call == StatusUnblock(user, current, status)
    case RoleWrite(user, actor, expected, role) =>
      call == RoleSnapshot(user, actor, role) && AuthorizesRoleMutation(actor, expected, role)
    case RoleMiss(user, actor, expected, role) => call == RoleWrite(user, actor, expected, role)
    case RoleSnapshot(_, _, _) => false
    case RefreshFind(_) => false
    case _ => true
  }

  predicate Reads(rows: Rows, query: Query, answer: Answer) {
    query.Read? ==> answer == if query.user in rows then Selected(rows[query.user]) else NoRow
  }

  lemma AnswerFollows(stores: Stores, call: Call, answer: Answer, choice: Choice)
    requires Next(call).Sql? && Reads(stores.rows, Next(call).query, answer)
    ensures Follows(stores, call, OnAnswer(call, answer, choice), choice)
  {
  }

  lemma ReplyFollows(stores: Stores, call: Call, reply: Reply, choice: Choice)
    requires Next(call).Redis?
    ensures Follows(stores, call, OnReply(call, reply, choice), choice)
  {
  }

  lemma ErrorFollows(stores: Stores, call: Call, choice: Choice)
    ensures Follows(stores, call, OnError(call), choice)
  {
  }

  lemma PerformFollows(stores: Stores, call: Call, fault: Fault, choice: Choice)
    ensures Follows(stores, call, Perform(stores, call, fault, choice).1, choice)
            || (Next(call).Finished? && Perform(stores, call, fault, choice) == (stores, call))
  {
    ErrorFollows(stores, call, choice);
    match Next(call)
    case Finished =>
    case Sql(query) => AnswerFollows(stores, call, RunQuery(stores.rows, query).1, choice);
    case Redis(command) => ReplyFollows(stores, call, Run(stores.redis, command).1, choice);
  }

  /** A refresh succeeds only by a rotation that took effect. */
  lemma RefreshedByRotation(stores: Stores, call: Call, fault: Fault, choice: Choice)
    requires call.RefreshRotate? && Perform(stores, call, fault, choice).1.Refreshed?
    ensures fault.Acknowledged?
    ensures Run(stores.redis, Next(call).command).1 == Rotated(call.token.session)
  {
  }

  /** The chains after a step: unchanged, one login's new chain, or one chain extended by a rotation. */
  predicate ChainStep(s: State, move: Move, chains: map<SessionId, seq<Jti>>) {
    || chains == s.chains
    || (move.Advance? && move.id < |s.calls| && s.calls[move.id].LoginCreate?
        && var t := s.calls[move.id].token; chains == s.chains[t.session := [t.jti]])
    || (move.Advance? && move.id < |s.calls| && s.calls[move.id].RefreshRotate?
        && var t := s.calls[move.id].token;
           t.session in s.chains && Last(s.chains[t.session], t.jti)
           && chains == s.chains[t.session := s.chains[t.session] + [s.calls[move.id].renewed.jti]])
  }

  lemma EffectExtendsChain(s: State, move: Move)
    requires SessionsChained(s)
    ensures ChainStep(s, move, ChainsAfter(s.chains, s.stores.redis, Effect(s, move)))
  {
    if Effect(s, move).Some? {
      var command := Effect(s, move).value;
      var reply := Run(s.stores.redis, command).1;
      if reply.Rotated? {
        SessionEffect(s.stores.redis, command, reply.session);
      }
    }
  }

  lemma EffectKeepsSessionsChained(chains: map<SessionId, seq<Jti>>, redis: Store, effect: Option<Command>, id: SessionId)
    requires forall id :: id in redis.sessions ==> id in chains && Last(chains[id], redis.sessions[id].jti)
    requires id in RedisAfter(redis, effect).sessions
    ensures id in ChainsAfter(chains, redis, effect)
    ensures Last(ChainsAfter(chains, redis, effect)[id], RedisAfter(redis, effect).sessions[id].jti)
  {
    if effect.Some? {
      SessionEffect(redis, effect.value, id);
    }
  }

  predicate RowStep(s: State, rows: Rows, user: UserId)
    requires user in rows
  {
    && rows[user].status.IsKnown() && rows[user].role.IsKnown() && 1 <= rows[user].version
    && if user in s.stores.rows then RowGrows(s.stores.rows[user], rows[user]) else user == s.nextUser
  }

  /** A relation that holds between a state and its successor; the invariant needs no more. */
  ghost predicate Transition(s: State, move: Move, after: State) {
    && s.nextId <= after.nextId && s.nextUser <= after.nextUser
    && Ordered(after.stores.redis) && Advances(s.stores.redis, after.stores.redis)
    && (forall user :: user in after.stores.rows ==> RowStep(s, after.stores.rows, user) && user < after.nextUser)
    && ChainStep(s, move, after.chains)
    && SessionsChained(after)
    && if move.Advance? && move.id < |s.calls| then
         && after.nextId == s.nextId + 2
         && |after.calls| == |s.calls|
         && after.calls == s.calls[move.id := after.calls[move.id]]
         && after.minted == s.minted + Mints(after.calls[move.id])
         && (Follows(s.stores, s.calls[move.id], after.calls[move.id], ChoiceOf(s, move))
             || (Next(s.calls[move.id]).Finished? && after.calls[move.id] == s.calls[move.id]))
         && (s.calls[move.id].RefreshRotate? && after.calls[move.id].Refreshed? ==>
               var t := s.calls[move.id].token;
               t.session in s.chains && Last(s.chains[t.session], t.jti)
               && after.chains == s.chains[t.session := s.chains[t.session] + [s.calls[move.id].renewed.jti]])
       else
         && after.minted == s.minted && after.chains == s.chains
         && (after.calls == s.calls || (move.Begin? && Startable(s, move.call) && after.calls == s.calls + [move.call]))
  }

  lemma StepRow(s: State, move: Move, user: UserId)
    requires RowsOk(s) && user in Step(s, move).stores.rows
    ensures RowStep(s, Step(s, move).stores.rows, user) && user < Step(s, move).nextUser
  {
    if Statement(s, move).Some? {
      QueryEffect(s.stores.rows, Statement(s, move).value, user);
    }
  }

  lemma StepSessions(s: State, move: Move)
    requires SessionsChained(s)
    ensures SessionsChained(Step(s, move))
  {
    forall id | id in RedisAfter(s.stores.redis, Effect(s, move)).sessions
      ensures id in ChainsAfter(s.chains, s.stores.redis, Effect(s, move))
      ensures Last(ChainsAfter(s.chains, s.stores.redis, Effect(s, move))[id],
                   RedisAfter(s.stores.redis, Effect(s, move)).sessions[id].jti)
    {
      EffectKeepsSessionsChained(s.chains, s.stores.redis, Effect(s, move), id);
    }
  }

  lemma StepRedis(s: State, move: Move)
    requires Ordered(s.stores.redis)
    ensures Ordered(Step(s, move).stores.redis) && Advances(s.stores.redis, Step(s, move).stores.redis)
  {
    if Effect(s, move).Some? {
      RunKeepsOrder(s.stores.redis, Effect(s, move).value);
    }
  }

  lemma StepRefreshed(s: State, move: Move)
    requires SessionsChained(s) && move.Advance? && move.id < |s.calls|
    requires s.calls[move.id].RefreshRotate? && Resume(s, move).Refreshed?
    ensures var t := s.calls[move.id].token;
            && t.session in s.chains && Last(s.chains[t.session], t.jti)
            && Step(s, move).chains == s.chains[t.session := s.chains[t.session] + [s.calls[move.id].renewed.jti]]
  {
    var call := s.calls[move.id];
    RefreshedByRotation(s.stores, call, move.fault, ChoiceOf(s, move));
    SessionEffect(s.stores.redis, Next(call).command, call.token.session);
  }

  lemma StepIsTransition(s: State, move: Move)
    requires Ordered(s.stores.redis) && SessionsChained(s) && RowsOk(s)
    ensures Transition(s, move, Step(s, move))
  {
    var after := Step(s, move);
    StepRedis(s, move);
    StepSessions(s, move);
    EffectExtendsChain(s, move);
    forall user | user in after.stores.rows
      ensures RowStep(s, after.stores.rows, user) && user < after.nextUser
    {
      StepRow(s, move, user);
    }
    if move.Advance? && move.id < |s.calls| {
      PerformFollows(s.stores, s.calls[move.id], move.fault, ChoiceOf(s, move));
      if s.calls[move.id].RefreshRotate? && Resume(s, move).Refreshed? {
        StepRefreshed(s, move);
      }
    }
  }

  // ----- every transition keeps the invariant -----

  lemma KeepsChains(s: State, move: Move, after: State)
    requires Invariant(s) && Transition(s, move, after)
    ensures ChainsDrawn(after) && ChainsDistinct(after)
    ensures forall id :: id in s.chains ==> id in after.chains && s.chains[id] <= after.chains[id]
  {
    if after.chains != s.chains {
      var call := s.calls[move.id];
      assert CallOk(s, call);
      if call.LoginCreate? {
        NewChain(s, after, call.token.session, call.token.jti);
      } else {
        LongerChain(s, after, call.token.session, call.renewed.jti);
      }
    }
  }

  lemma NewChain(s: State, after: State, id: SessionId, jti: Jti)
    requires ChainsDrawn(s) && ChainsDistinct(s) && s.nextId <= after.nextId
    requires id !in s.chains && id < s.nextId && jti < s.nextId && Unused(s, jti)
    requires after.chains == s.chains[id := [jti]]
    ensures ChainsDrawn(after) && ChainsDistinct(after)
  {
  }

  lemma LongerChain(s: State, after: State, id: SessionId, jti: Jti)
    requires ChainsDrawn(s) && ChainsDistinct(s) && s.nextId <= after.nextId
    requires id in s.chains && jti < s.nextId && Unused(s, jti)
    requires after.chains == s.chains[id := s.chains[id] + [jti]]
    ensures ChainsDrawn(after) && ChainsDistinct(after)
  {
  }

  lemma KeepsTokens(s: State, move: Move, after: State)
    requires Invariant(s) && Transition(s, move, after)
    ensures TokensOk(after)
  {
    forall token | token in after.minted ensures TokenOk(after, token) {
      if token in s.minted {
        assert TokenOk(s, token);
      } else {
        assert CallOk(s, s.calls[move.id]);
      }
    }
  }

  lemma UnusedStays(s: State, move: Move, after: State, jti: Jti)
    requires Transition(s, move, after) && Unused(s, jti)
    requires move.Advance? && move.id < |s.calls| ==> Owns(s.calls[move.id]) != Some(jti)
    ensures Unused(after, jti)
  {
  }

  lemma LinkedStays(s: State, move: Move, after: State, id: SessionId, prior: Jti, renewed: Jti)
    requires Invariant(s) && Transition(s, move, after) && Linked(s, id, prior, renewed)
    ensures Linked(after, id, prior, renewed)
  {
    KeepsChains(s, move, after);
    var k: nat :| LinkedAt(s.chains[id], k, prior, renewed);
    assert LinkedAt(after.chains[id], k, prior, renewed);
  }

  /** A call that did not move keeps what it knows. */
  lemma OtherCallsKeep(s: State, move: Move, after: State, i: nat)
    requires Invariant(s) && Transition(s, move, after) && i < |s.calls| && !(move.Advance? && move.id == i)
    ensures CallOk(after, s.calls[i])
  {
    assert CallOk(s, s.calls[i]);
    match s.calls[i]
    case LoginCreate(t) =>
      UnusedStays(s, move, after, t.jti);
      if move.Advance? && move.id < |s.calls| {
        assert CallOk(s, s.calls[move.id]);
      }
    case RefreshRotate(_, renewed) => UnusedStays(s, move, after, renewed.jti);
    case Refreshed(t, renewed) => LinkedStays(s, move, after, t.session, t.jti, renewed.jti);
    case _ =>
  }

  lemma NewIdUnused(s: State, move: Move, after: State)
    requires Invariant(s) && Transition(s, move, after) && move.Advance? && move.id < |s.calls|
    requires !s.calls[move.id].LoginCreate? && !s.calls[move.id].RefreshRotate?
    ensures Unused(after, s.nextId) && s.nextId + 1 !in after.chains
  {
  }

  lemma MovedCallKeeps(s: State, move: Move, after: State)
    requires Invariant(s) && Transition(s, move, after) && move.Advance? && move.id < |s.calls|
    ensures CallOk(after, after.calls[move.id])
  {
    var moved := after.calls[move.id];
    if moved == s.calls[move.id] {
      EndedCallKeeps(s, move, after);
    } else if moved.LoginCreate? || moved.RefreshRotate? {
      DrawnCallKeeps(s, move, after);
    } else if moved.Refreshed? {
      RefreshLinks(s, move, after);
    } else {
      PlainCallKeeps(s, move, after);
    }
  }

  lemma EndedCallKeeps(s: State, move: Move, after: State)
    requires Invariant(s) && Transition(s, move, after) && move.Advance? && move.id < |s.calls|
    requires after.calls[move.id] == s.calls[move.id]
    ensures CallOk(after, after.calls[move.id])
  {
    var call := s.calls[move.id];
    assert CallOk(s, call);
    if call.Refreshed? {
      LinkedStays(s, move, after, call.token.session, call.token.jti, call.renewed.jti);
    }
  }

  /** What a call carries on from its predecessor was checked there or has just been read. */
  lemma PlainCallKeeps(s: State, move: Move, after: State)
    requires Invariant(s) && Transition(s, move, after) && move.Advance? && move.id < |s.calls|
    requires after.calls[move.id] != s.calls[move.id]
    requires var moved := after.calls[move.id]; !moved.LoginCreate? && !moved.RefreshRotate? && !moved.Refreshed?
    ensures CallOk(after, after.calls[move.id])
  {
    assert CallOk(s, s.calls[move.id]);
  }

  /** A login or refresh that has drawn its identifiers holds new ones. */
  lemma DrawnCallKeeps(s: State, move: Move, after: State)
    requires Invariant(s) && Transition(s, move, after) && move.Advance? && move.id < |s.calls|
    requires after.calls[move.id].LoginCreate? || after.calls[move.id].RefreshRotate?
    requires after.calls[move.id] != s.calls[move.id]
    ensures CallOk(after, after.calls[move.id])
  {
    assert CallOk(s, s.calls[move.id]);
    NewIdUnused(s, move, after);
  }

  /** A refresh that succeeds has just appended its new JTI behind the consumed one. */
  lemma RefreshLinks(s: State, move: Move, after: State)
    requires Invariant(s) && Transition(s, move, after) && move.Advance? && move.id < |s.calls|
    requires after.calls[move.id].Refreshed? && after.calls[move.id] != s.calls[move.id]
    ensures CallOk(after, after.calls[move.id])
  {
    var call := s.calls[move.id];
    assert CallOk(s, call);
    var chain := after.chains[call.token.session];
    assert LinkedAt(chain, |chain| - 2, call.token.jti, call.renewed.jti);
  }

  lemma KeepsCalls(s: State, move: Move, after: State)
    requires Invariant(s) && Transition(s, move, after)
    ensures CallsOk(after)
  {
    forall i | 0 <= i < |after.calls| ensures CallOk(after, after.calls[i]) {
      if move.Advance? && move.id == i {
        MovedCallKeeps(s, move, after);
      } else if i < |s.calls| {
        OtherCallsKeep(s, move, after, i);
      }
    }
  }

  lemma KeepsOwnership(s: State, move: Move, after: State)
    requires Invariant(s) && Transition(s, move, after)
    ensures OwnershipDistinct(after) && OwnershipDrawn(after)
  {
    if move.Advance? && move.id < |s.calls| {
      var moved := after.calls[move.id];
      assert Owns(moved).Some? ==> Owns(moved) == Owns(s.calls[move.id]) || Owns(moved).value == s.nextId;
    }
  }

  lemma TransitionKeepsInvariant(s: State, move: Move, after: State)
    requires Invariant(s) && Transition(s, move, after)
    ensures Invariant(after)
    ensures Grows(s, after)
  {
    KeepsChains(s, move, after);
    KeepsTokens(s, move, after);
    KeepsCalls(s, move, after);
    KeepsOwnership(s, move, after);
  }

  lemma StepKeepsInvariant(s: State, move: Move)
    requires Invariant(s)
    ensures Invariant(Step(s, move))
    ensures Grows(s, Step(s, move))
  {
    StepIsTransition(s, move);
    TransitionKeepsInvariant(s, move, Step(s, move));
  }

  // ----- whole runs -----

  lemma InitInvariant()
    ensures Invariant(Init())
  {
  }

  lemma {:induction false} ExecKeepsInvariant(s: State, moves: seq<Move>)
    requires Invariant(s)
    ensures Invariant(Exec(s, moves))
    ensures Grows(s, Exec(s, moves))
    decreases |moves|
  {
    if moves != [] {
      StepKeepsInvariant(s, moves[0]);
      ExecKeepsInvariant(Step(s, moves[0]), moves[1..]);
    }
  }

  lemma ReachableInvariant(moves: seq<Move>)
    ensures Invariant(Exec(Init(), moves))
  {
    InitInvariant();
    ExecKeepsInvariant(Init(), moves);
  }
}
