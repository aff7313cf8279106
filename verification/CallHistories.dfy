/** What a call must have done on its way, over all interleavings: whatever a call has
    got past, it got past at one step of its own, in a state that allowed it. */
module CallHistories {
  import opened Domain
  import opened SessionStore
  import opened SessionLaws
  import opened AccountStore
  import opened UseCases
  import opened Protocol
  import opened ProtocolInvariant
  import opened SessionGenerations
  import opened Outcomes

  // ----- getting past a point -----

  /** The step takes a call past a point that `passed` describes. */
  predicate Crosses(s: State, move: Move, passed: Call -> bool) {
    move.Advance? && move.id < |s.calls| && !passed(s.calls[move.id]) && passed(Resume(s, move))
  }

  /** Move `k` of the run takes call `i` past the point. */
  ghost predicate CrossesAt(moves: seq<Move>, i: nat, k: nat, passed: Call -> bool) {
    k < |moves| && moves[k].Advance? && moves[k].id == i && Crosses(Exec(Init(), moves[..k]), moves[k], passed)
  }

  /** No call starts past the point. */
  ghost predicate NotAtStart(passed: Call -> bool) {
    forall s, call :: Startable(s, call) ==> !passed(call)
  }

  /** A call past the point got there at some move of its own. */
  lemma {:induction false} PassedByCrossing(moves: seq<Move>, i: nat, passed: Call -> bool)
    requires NotAtStart(passed)
    requires i < |Exec(Init(), moves).calls| && passed(Exec(Init(), moves).calls[i])
    ensures exists k: nat :: CrossesAt(moves, i, k, passed)
    decreases |moves|
  {
    assert moves != [];
    var n := |moves| - 1;
    var front := moves[..n];
    var s := Exec(Init(), front);
    assert moves == front + [moves[n]];
    ExecSnoc(Init(), front, moves[n]);
    if i < |s.calls| && passed(s.calls[i]) {
      PassedByCrossing(front, i, passed);
      var k: nat :| CrossesAt(front, i, k, passed);
      assert moves[..k] == front[..k];
      assert CrossesAt(moves, i, k, passed);
    } else {
      StepPasses(s, moves[n], i, passed);
      assert CrossesAt(moves, i, n, passed);
    }
  }

  lemma StepPasses(s: State, move: Move, i: nat, passed: Call -> bool)
    requires NotAtStart(passed)
    requires i < |Step(s, move).calls| && passed(Step(s, move).calls[i])
    requires i < |s.calls| ==> !passed(s.calls[i])
    ensures move.Advance? && move.id == i && Crosses(s, move, passed)
  {
  }

  /** A step takes a call on by its command's error, its answer or its reply. */
  lemma ResumeCases(s: State, move: Move)
    requires move.Advance? && move.id < |s.calls|
    ensures var call := s.calls[move.id];
            || (Next(call).Finished? && Resume(s, move) == call)
            || (!Next(call).Finished? && !move.fault.Acknowledged? && Resume(s, move) == OnError(call))
            || (Next(call).Sql? && move.fault.Acknowledged?
                && Resume(s, move) == OnAnswer(call, RunQuery(s.stores.rows, Next(call).query).1, ChoiceOf(s, move)))
            || (Next(call).Redis? && move.fault.Acknowledged?
                && Resume(s, move) == OnReply(call, Run(s.stores.redis, Next(call).command).1, ChoiceOf(s, move)))
  {
  }

  lemma RunSplits(moves: seq<Move>, more: seq<Move>, k: nat)
    requires k < |moves|
    ensures moves + more == moves[..k] + [moves[k]] + (moves[k + 1..] + more)
  {
  }

  // ----- Login -----

  /** The login of `user` has got past the password check. */
  predicate LoginVerified(call: Call, user: UserId) {
    || (call.LoginConfirm? && call.user == user)
    || ((call.LoginCreate? || call.LoginCleanup? || call.LoggedIn?) && call.token.user == user)
  }

  /** The step verified the password of an active account. */
  predicate VerifiesLogin(s: State, move: Move, user: UserId) {
    && move.Advance? && move.id < |s.calls| && s.calls[move.id] == LoginLookup(user)
    && move.fault.Acknowledged? && move.local.verified
    && user in s.stores.rows && s.stores.rows[user].status == Active
  }

  lemma LoginCrossing(s: State, move: Move, user: UserId)
    requires Crosses(s, move, call => LoginVerified(call, user))
    ensures VerifiesLogin(s, move, user)
  {
    ResumeCases(s, move);
    if Next(s.calls[move.id]).Sql? {
      LoginAnswers(s.stores.rows, s.calls[move.id], ChoiceOf(s, move), user);
    }
  }

  lemma LoginAnswers(rows: Rows, call: Call, choice: Choice, user: UserId)
    requires Next(call).Sql? && !LoginVerified(call, user)
    ensures LoginVerified(OnAnswer(call, RunQuery(rows, Next(call).query).1, choice), user) ==>
              call == LoginLookup(user) && choice.local.verified && user in rows && rows[user].status == Active
  {
  }

  ghost predicate LoginVerifiedAt(moves: seq<Move>, i: nat, k: nat, user: UserId) {
    k < |moves| && moves[k].Advance? && moves[k].id == i && VerifiesLogin(Exec(Init(), moves[..k]), moves[k], user)
  }

  /** Every login that got past the password check, up to its success, had the password
      of an active account verified at one of its own steps. */
  lemma LoginsAreVerified(moves: seq<Move>, i: nat, user: UserId)
    requires i < |Exec(Init(), moves).calls| && LoginVerified(Exec(Init(), moves).calls[i], user)
    ensures exists k: nat :: LoginVerifiedAt(moves, i, k, user)
  {
    var passed := (call: Call) => LoginVerified(call, user);
    PassedByCrossing(moves, i, passed);
    var k: nat :| CrossesAt(moves, i, k, passed);
    LoginCrossing(Exec(Init(), moves[..k]), moves[k], user);
    assert LoginVerifiedAt(moves, i, k, user);
  }

  // ----- sessions that are handed out -----

  /** The step ends in a state that admits the identity. */
  predicate LeavesAdmitted(s: State, move: Move, token: Token) {
    move.Advance? && move.fault.Acknowledged? && AdmitsToken(Step(s, move).stores.redis, token)
  }

  /** The login has created its session. */
  predicate SessionCreated(call: Call, token: Token) {
    call == LoggedIn(token) || call == LoginCleanup(token)
  }

  lemma CreationCrossing(s: State, move: Move, token: Token)
    requires Crosses(s, move, call => SessionCreated(call, token))
    ensures s.calls[move.id] == LoginCreate(token) && LeavesAdmitted(s, move, token)
    ensures Resume(s, move).LoggedIn? ==> move.local.accessSigned
  {
    ResumeCases(s, move);
    var call := s.calls[move.id];
    if Next(call).Redis? {
      CreationReplies(call, Run(s.stores.redis, Next(call).command).1, ChoiceOf(s, move), token);
      CreatedExactlyWhen(s.stores.redis, token.session, token.user, token.jti, token.version);
    }
  }

  lemma CreationReplies(call: Call, reply: Reply, choice: Choice, token: Token)
    requires Next(call).Redis? && !SessionCreated(call, token) && SessionCreated(OnReply(call, reply, choice), token)
    ensures call == LoginCreate(token) && reply.Created?
    ensures OnReply(call, reply, choice).LoggedIn? ==> choice.local.accessSigned
  {
  }

  lemma RefreshCrossing(s: State, move: Move, token: Token, renewed: Token)
    requires Invariant(s) && Crosses(s, move, call => call == Refreshed(token, renewed))
    ensures s.calls[move.id] == RefreshRotate(token, renewed)
    ensures AdmitsToken(s.stores.redis, token) && LeavesAdmitted(s, move, renewed)
  {
    ResumeCases(s, move);
    var call := s.calls[move.id];
    assert CallOk(s, call);
    if Next(call).Redis? {
      RefreshReplies(call, Run(s.stores.redis, Next(call).command).1, ChoiceOf(s, move), token, renewed);
      RotatedExactlyWhen(s.stores.redis, token.jti, renewed.jti, token.user, token.session, token.version);
    }
  }

  lemma RefreshReplies(call: Call, reply: Reply, choice: Choice, token: Token, renewed: Token)
    requires Next(call).Redis? && call != Refreshed(token, renewed)
    requires OnReply(call, reply, choice) == Refreshed(token, renewed)
    ensures call == RefreshRotate(token, renewed) && reply.Rotated?
  {
  }

  ghost predicate AdmittedAt(moves: seq<Move>, i: nat, k: nat, token: Token) {
    k < |moves| && moves[k].Advance? && moves[k].id == i && LeavesAdmitted(Exec(Init(), moves[..k]), moves[k], token)
  }

  /** The token of a successful login was admitted right after its session was created. */
  lemma LoggedInWasAdmitted(moves: seq<Move>, i: nat, token: Token)
    requires i < |Exec(Init(), moves).calls| && Exec(Init(), moves).calls[i] == LoggedIn(token)
    ensures exists k: nat :: AdmittedAt(moves, i, k, token)
  {
    var passed := (call: Call) => SessionCreated(call, token);
    PassedByCrossing(moves, i, passed);
    var k: nat :| CrossesAt(moves, i, k, passed);
    CreationCrossing(Exec(Init(), moves[..k]), moves[k], token);
    assert AdmittedAt(moves, i, k, token);
  }

  /** The token of a successful refresh was admitted right after the rotation. */
  lemma RefreshedWasAdmitted(moves: seq<Move>, i: nat, token: Token, renewed: Token)
    requires i < |Exec(Init(), moves).calls| && Exec(Init(), moves).calls[i] == Refreshed(token, renewed)
    ensures exists k: nat :: AdmittedAt(moves, i, k, renewed)
  {
    var passed := (call: Call) => call == Refreshed(token, renewed);
    PassedByCrossing(moves, i, passed);
    var k: nat :| CrossesAt(moves, i, k, passed);
    ReachableInvariant(moves[..k]);
    RefreshCrossing(Exec(Init(), moves[..k]), moves[k], token, renewed);
    assert AdmittedAt(moves, i, k, renewed);
  }

  // ----- what a refresh has checked -----

  predicate RefreshAdmitted(call: Call, token: Token) {
    call == RefreshConfirm(token) || RefreshHealthy(call, token)
  }

  predicate RefreshHealthy(call: Call, token: Token) {
    (call.RefreshRotate? || call.Refreshed?) && call.token == token
  }

  lemma AdmissionCrossing(s: State, move: Move, token: Token)
    requires Crosses(s, move, call => RefreshAdmitted(call, token))
    ensures s.calls[move.id] == RefreshFind(token) && move.fault.Acknowledged? && AdmitsToken(s.stores.redis, token)
  {
    ResumeCases(s, move);
    var call := s.calls[move.id];
    if Next(call).Redis? {
      AdmissionReplies(call, Run(s.stores.redis, Next(call).command).1, ChoiceOf(s, move), token);
      FoundExactlyWhen(s.stores.redis, token.jti, token.user, token.session, token.version);
    } else if Next(call).Sql? {
      HealthAnswers(s.stores.rows, call, ChoiceOf(s, move), token);
    }
  }

  lemma AdmissionReplies(call: Call, reply: Reply, choice: Choice, token: Token)
    requires Next(call).Redis? && !RefreshAdmitted(call, token)
    ensures RefreshAdmitted(OnReply(call, reply, choice), token) ==> call == RefreshFind(token) && reply.Found?
  {
  }

  lemma HealthAnswers(rows: Rows, call: Call, choice: Choice, token: Token)
    requires Next(call).Sql?
    ensures RefreshAdmitted(OnAnswer(call, RunQuery(rows, Next(call).query).1, choice), token) ==>
              call == RefreshConfirm(token) && RefreshPasses(rows, token, choice)
  {
  }

  lemma HealthCrossing(s: State, move: Move, token: Token)
    requires Crosses(s, move, call => RefreshHealthy(call, token))
    ensures s.calls[move.id] == RefreshConfirm(token) && move.fault.Acknowledged?
    ensures RefreshPasses(s.stores.rows, token, ChoiceOf(s, move))
  {
    ResumeCases(s, move);
    var call := s.calls[move.id];
    if Next(call).Redis? {
      HealthReplies(call, Run(s.stores.redis, Next(call).command).1, ChoiceOf(s, move), token);
    } else if Next(call).Sql? {
      HealthAnswers(s.stores.rows, call, ChoiceOf(s, move), token);
    }
  }

  lemma HealthReplies(call: Call, reply: Reply, choice: Choice, token: Token)
    requires Next(call).Redis? && !RefreshHealthy(call, token)
    ensures !RefreshHealthy(OnReply(call, reply, choice), token)
  {
  }

  /** Moves `a` and `b` of call `i` find the token admitted, and then its account healthy. */
  ghost predicate RefreshCheckedAt(moves: seq<Move>, i: nat, a: nat, b: nat, token: Token) {
    && a < |moves| && b < |moves|
    && moves[a].Advance? && moves[a].id == i && moves[a].fault.Acknowledged?
    && moves[b].Advance? && moves[b].id == i && moves[b].fault.Acknowledged?
    && AdmitsToken(Exec(Init(), moves[..a]).stores.redis, token)
    && RefreshPasses(Exec(Init(), moves[..b]).stores.rows, token, ChoiceOf(Exec(Init(), moves[..b]), moves[b]))
  }

  /** Every successful refresh found its token admitted at one of its own steps, and at
      another the account healthy at the token's version with both new tokens signed. */
  lemma RefreshesAreChecked(moves: seq<Move>, i: nat, token: Token)
    requires i < |Exec(Init(), moves).calls| && RefreshHealthy(Exec(Init(), moves).calls[i], token)
    ensures exists a: nat, b: nat :: RefreshCheckedAt(moves, i, a, b, token)
  {
    NoRefreshStartsAdmitted(token);
    var admitted := (call: Call) => RefreshAdmitted(call, token);
    PassedByCrossing(moves, i, admitted);
    var a: nat :| CrossesAt(moves, i, a, admitted);
    AdmissionCrossing(Exec(Init(), moves[..a]), moves[a], token);
    var healthy := (call: Call) => RefreshHealthy(call, token);
    PassedByCrossing(moves, i, healthy);
    var b: nat :| CrossesAt(moves, i, b, healthy);
    HealthCrossing(Exec(Init(), moves[..b]), moves[b], token);
    assert RefreshCheckedAt(moves, i, a, b, token);
  }

  lemma NoRefreshStartsAdmitted(token: Token)
    ensures NotAtStart(call => RefreshAdmitted(call, token)) && NotAtStart(call => RefreshHealthy(call, token))
  {
  }

  // ----- passwords -----

  /** The password change of `user` has got past its checks. */
  predicate PasswordVerified(call: Call, user: UserId) {
    (call.PasswordWrite? || call.PasswordCleanup? || call.PasswordChanged?) && call.user == user
  }

  /** The password change of `user` has been written. */
  predicate PasswordStored(call: Call, user: UserId) {
    (call.PasswordCleanup? || call.PasswordChanged?) && call.user == user
  }

  predicate VerifiesPassword(s: State, move: Move, user: UserId) {
    && move.Advance? && move.id < |s.calls| && s.calls[move.id].PasswordLookup? && s.calls[move.id].user == user
    && move.fault.Acknowledged? && move.local.verified && move.local.hashed && user in s.stores.rows
  }

  /** The step leaves the digest of the call stored, under the next version. */
  predicate StoresPassword(s: State, move: Move, user: UserId) {
    && move.Advance? && move.id < |s.calls| && s.calls[move.id].PasswordWrite? && s.calls[move.id].user == user
    && move.fault.Acknowledged? && user in s.stores.rows
    && Step(s, move).stores.rows == WithDigest(s.stores.rows, user, s.calls[move.id].digest)
  }

  lemma PasswordCrossing(s: State, move: Move, user: UserId)
    requires Crosses(s, move, call => PasswordVerified(call, user))
    ensures VerifiesPassword(s, move, user)
  {
    ResumeCases(s, move);
    if Next(s.calls[move.id]).Sql? {
      PasswordAnswers(s.stores.rows, s.calls[move.id], ChoiceOf(s, move), user);
    }
  }

  lemma PasswordAnswers(rows: Rows, call: Call, choice: Choice, user: UserId)
    requires Next(call).Sql? && !PasswordVerified(call, user)
    ensures PasswordVerified(OnAnswer(call, RunQuery(rows, Next(call).query).1, choice), user) ==>
              call.PasswordLookup? && call.user == user && choice.local.verified && choice.local.hashed && user in rows
  {
  }

  lemma DigestCrossing(s: State, move: Move, user: UserId)
    requires Crosses(s, move, call => PasswordStored(call, user))
    ensures StoresPassword(s, move, user)
  {
    ResumeCases(s, move);
    var call := s.calls[move.id];
    if Next(call).Sql? {
      DigestAnswers(s.stores.rows, call, ChoiceOf(s, move), user);
      PasswordIsStored(s.stores.rows, user, call.digest);
    }
  }

  lemma DigestAnswers(rows: Rows, call: Call, choice: Choice, user: UserId)
    requires Next(call).Sql? && !PasswordStored(call, user)
    requires PasswordStored(OnAnswer(call, RunQuery(rows, Next(call).query).1, choice), user)
    ensures call.PasswordWrite? && call.user == user && user in rows
  {
  }

  lemma NoPasswordStartsVerified(user: UserId)
    ensures NotAtStart(call => PasswordVerified(call, user)) && NotAtStart(call => PasswordStored(call, user))
  {
  }

  ghost predicate PasswordVerifiedAt(moves: seq<Move>, i: nat, k: nat, user: UserId) {
    k < |moves| && moves[k].Advance? && moves[k].id == i && VerifiesPassword(Exec(Init(), moves[..k]), moves[k], user)
  }

  ghost predicate PasswordStoredAt(moves: seq<Move>, i: nat, k: nat, user: UserId) {
    k < |moves| && moves[k].Advance? && moves[k].id == i && StoresPassword(Exec(Init(), moves[..k]), moves[k], user)
  }

  /** Every password change that got past its checks verified the current password and
      hashed the new one at one of its own steps. */
  lemma PasswordChangesAreVerified(moves: seq<Move>, i: nat, user: UserId)
    requires i < |Exec(Init(), moves).calls| && PasswordVerified(Exec(Init(), moves).calls[i], user)
    ensures exists k: nat :: PasswordVerifiedAt(moves, i, k, user)
  {
    NoPasswordStartsVerified(user);
    var passed := (call: Call) => PasswordVerified(call, user);
    PassedByCrossing(moves, i, passed);
    var k: nat :| CrossesAt(moves, i, k, passed);
    PasswordCrossing(Exec(Init(), moves[..k]), moves[k], user);
    assert PasswordVerifiedAt(moves, i, k, user);
  }

  /** Every successful password change stored its digest at one of its own steps. */
  lemma PasswordChangesAreStored(moves: seq<Move>, i: nat, user: UserId)
    requires i < |Exec(Init(), moves).calls| && PasswordStored(Exec(Init(), moves).calls[i], user)
    ensures exists k: nat :: PasswordStoredAt(moves, i, k, user)
  {
    NoPasswordStartsVerified(user);
    var passed := (call: Call) => PasswordStored(call, user);
    PassedByCrossing(moves, i, passed);
    var k: nat :| CrossesAt(moves, i, k, passed);
    DigestCrossing(Exec(Init(), moves[..k]), moves[k], user);
    assert PasswordStoredAt(moves, i, k, user);
  }

  /** The step leaves the fields of the call stored. */
  predicate StoresFields(s: State, move: Move, user: UserId) {
    && move.Advance? && move.id < |s.calls| && s.calls[move.id].FieldsWrite? && s.calls[move.id].user == user
    && move.fault.Acknowledged? && user in s.stores.rows
    && Step(s, move).stores.rows
       == match s.calls[move.id].newDigest
          case Some(digest) => WithDigest(s.stores.rows, user, digest)
          case None => s.stores.rows
  }

  lemma FieldsCrossing(s: State, move: Move, user: UserId)
    requires Crosses(s, move, call => call == FieldsWritten(user))
    ensures StoresFields(s, move, user)
  {
    ResumeCases(s, move);
    var call := s.calls[move.id];
    if Next(call).Sql? {
      FieldsAnswers(s.stores.rows, call, ChoiceOf(s, move), user);
      FieldsAreStored(s.stores.rows, user, call.email, call.newDigest);
    }
  }

  lemma FieldsAnswers(rows: Rows, call: Call, choice: Choice, user: UserId)
    requires Next(call).Sql? && OnAnswer(call, RunQuery(rows, Next(call).query).1, choice) == FieldsWritten(user)
    ensures call.FieldsWrite? && call.user == user && user in rows
  {
  }

  ghost predicate FieldsStoredAt(moves: seq<Move>, i: nat, k: nat, user: UserId) {
    k < |moves| && moves[k].Advance? && moves[k].id == i && StoresFields(Exec(Init(), moves[..k]), moves[k], user)
  }

  /** Every successful update stored its digest, if it had one, at one of its own steps. */
  lemma UpdatesAreStored(moves: seq<Move>, i: nat, user: UserId)
    requires i < |Exec(Init(), moves).calls| && Exec(Init(), moves).calls[i] == FieldsWritten(user)
    ensures exists k: nat :: FieldsStoredAt(moves, i, k, user)
  {
    var passed := (call: Call) => call == FieldsWritten(user);
    PassedByCrossing(moves, i, passed);
    var k: nat :| CrossesAt(moves, i, k, passed);
    FieldsCrossing(Exec(Init(), moves[..k]), moves[k], user);
    assert FieldsStoredAt(moves, i, k, user);
  }

  // ----- status changes -----

  /** The status change of `user` to `status` has got past its snapshot. */
  predicate StatusAuthorized(call: Call, user: UserId, status: UserStatus) {
    (call.StatusBlock? || call.StatusUnblock? || call.StatusWrite? || call.StatusMiss? || call.StatusChanged?)
    && call.user == user && call.status == status
  }

  /** The step found an account that the actor outranks, in a status that may be changed so or repeated. */
  predicate AuthorizesStatus(s: State, move: Move, user: UserId, status: UserStatus) {
    && move.Advance? && move.id < |s.calls| && s.calls[move.id].StatusSnapshot?
    && s.calls[move.id].user == user && s.calls[move.id].status == status && move.fault.Acknowledged?
    && user in s.stores.rows && Outranks(s.calls[move.id].actor, s.stores.rows[user].role)
    && var current := s.stores.rows[user].status;
       (current == status && current != StatusUnknown)
       || (current, status) in {(Inactive, Active), (Active, Suspended), (Suspended, Active)}
  }

  lemma StatusCrossing(s: State, move: Move, user: UserId, status: UserStatus)
    requires Crosses(s, move, call => StatusAuthorized(call, user, status))
    ensures AuthorizesStatus(s, move, user, status)
  {
    ResumeCases(s, move);
    var call := s.calls[move.id];
    if Next(call).Sql? {
      StatusAnswers(s.stores.rows, call, ChoiceOf(s, move), user, status);
    } else if Next(call).Redis? {
      StatusReplies(call, Run(s.stores.redis, Next(call).command).1, ChoiceOf(s, move), user, status);
    }
  }

  lemma StatusAnswers(rows: Rows, call: Call, choice: Choice, user: UserId, status: UserStatus)
    requires Next(call).Sql? && !StatusAuthorized(call, user, status)
    requires StatusAuthorized(OnAnswer(call, RunQuery(rows, Next(call).query).1, choice), user, status)
    ensures call.StatusSnapshot? && call.user == user && call.status == status
    ensures user in rows && Outranks(call.actor, rows[user].role)
    ensures (rows[user].status == status && status != StatusUnknown)
            || (rows[user].status, status) in {(Inactive, Active), (Active, Suspended), (Suspended, Active)}
  {
    if call.StatusSnapshot? && call.user in rows {
      RankDecides(call.actor, rows[call.user].role);
    }
  }

  lemma StatusReplies(call: Call, reply: Reply, choice: Choice, user: UserId, status: UserStatus)
    requires Next(call).Redis? && !StatusAuthorized(call, user, status)
    ensures !StatusAuthorized(OnReply(call, reply, choice), user, status)
  {
  }

  ghost predicate StatusAuthorizedAt(moves: seq<Move>, i: nat, k: nat, user: UserId, status: UserStatus) {
    k < |moves| && moves[k].Advance? && moves[k].id == i && AuthorizesStatus(Exec(Init(), moves[..k]), moves[k], user, status)
  }

  /** Every status change that got past its snapshot, up to its success, had an actor who
      outranked the target as stored at one of the call's own steps. */
  lemma StatusChangesAreAuthorized(moves: seq<Move>, i: nat, user: UserId, status: UserStatus)
    requires i < |Exec(Init(), moves).calls| && StatusAuthorized(Exec(Init(), moves).calls[i], user, status)
    ensures exists k: nat :: StatusAuthorizedAt(moves, i, k, user, status)
  {
    var passed := (call: Call) => StatusAuthorized(call, user, status);
    PassedByCrossing(moves, i, passed);
    var k: nat :| CrossesAt(moves, i, k, passed);
    StatusCrossing(Exec(Init(), moves[..k]), moves[k], user, status);
    assert StatusAuthorizedAt(moves, i, k, user, status);
  }

  // ----- deletion and logout -----

  lemma RemovalCrossing(s: State, move: Move, user: UserId)
    requires Crosses(s, move, call => call == UserDeleted(user))
    ensures move.fault.Acknowledged? && user in s.stores.rows && Step(s, move).stores.rows == s.stores.rows - {user}
  {
    ResumeCases(s, move);
    var call := s.calls[move.id];
    if Next(call).Sql? {
      RemovalAnswers(s.stores.rows, call, ChoiceOf(s, move), user);
      RowIsRemoved(s.stores.rows, user);
    }
  }

  lemma RemovalAnswers(rows: Rows, call: Call, choice: Choice, user: UserId)
    requires Next(call).Sql? && OnAnswer(call, RunQuery(rows, Next(call).query).1, choice) == UserDeleted(user)
    ensures call == DeleteRemove(user) && user in rows
  {
  }

  /** When DeleteUser has returned nil the account is gone, now and in every later state. */
  lemma DeletedUsersAreGone(moves: seq<Move>, more: seq<Move>, i: nat, user: UserId)
    requires i < |Exec(Init(), moves).calls| && Exec(Init(), moves).calls[i] == UserDeleted(user)
    ensures user !in Exec(Init(), moves + more).stores.rows
  {
    var passed := (call: Call) => call == UserDeleted(user);
    PassedByCrossing(moves, i, passed);
    var k: nat :| CrossesAt(moves, i, k, passed);
    RemovalCrossing(Exec(Init(), moves[..k]), moves[k], user);
    RunSplits(moves, more, k);
    GoneForGood(moves[..k], moves[k], moves[k + 1..] + more, user);
  }

  lemma GoneForGood(before: seq<Move>, remove: Move, after: seq<Move>, user: UserId)
    requires user in Exec(Init(), before).stores.rows
    requires user !in Step(Exec(Init(), before), remove).stores.rows
    ensures user !in Exec(Init(), before + [remove] + after).stores.rows
  {
    var s := Exec(Init(), before);
    ReachableInvariant(before);
    StepKeepsInvariant(s, remove);
    ExecKeepsInvariant(Step(s, remove), after);
    ExecSnoc(Init(), before, remove);
    ExecConcat(Init(), before + [remove], after);
  }

  /** The step ended sessions: every target, or every other session of the user that the index held. */
  predicate EndsSessions(s: State, move: Move) {
    && move.Advance? && move.id < |s.calls| && move.fault.Acknowledged?
    && var sessions, after := s.stores.redis.sessions, Step(s, move).stores.redis.sessions;
       match s.calls[move.id]
       case LogoutDelete(user, targets) => after == sessions - targets
       case LogoutOthers(user, current) =>
         && current in after && after[current].user == user
         && forall id :: id in after && after[id].user == user && id != current ==> id !in Indexed(s.stores.redis, user)
       case _ => false
  }

  lemma LogoutCrossing(s: State, move: Move)
    requires Crosses(s, move, (call: Call) => call.LoggedOut?)
    ensures EndsSessions(s, move)
  {
    ResumeCases(s, move);
    var call := s.calls[move.id];
    if Next(call).Redis? {
      LogoutReplies(call, Run(s.stores.redis, Next(call).command).1, ChoiceOf(s, move));
      if call.LogoutDelete? {
        DeletedExactlyWhenOwned(s.stores.redis, call.user, call.targets);
      } else {
        DeleteOthersKeepsExactly(s.stores.redis, call.user, call.session);
      }
    } else if Next(call).Sql? {
      LogoutAnswers(call, RunQuery(s.stores.rows, Next(call).query).1, ChoiceOf(s, move));
    }
  }

  lemma LogoutReplies(call: Call, reply: Reply, choice: Choice)
    requires Next(call).Redis? && OnReply(call, reply, choice).LoggedOut?
    ensures (call.LogoutDelete? || call.LogoutOthers?) && reply.Deleted?
  {
  }

  lemma LogoutAnswers(call: Call, answer: Answer, choice: Choice)
    requires Next(call).Sql?
    ensures !OnAnswer(call, answer, choice).LoggedOut?
  {
  }

  /** A session that has ended is never stored again. */
  lemma {:induction false} EndedForGood(s: State, moves: seq<Move>, id: SessionId)
    requires Invariant(s) && id in s.chains && id !in s.stores.redis.sessions
    ensures id !in Exec(s, moves).stores.redis.sessions
    decreases |moves|
  {
    if moves != [] {
      StepKeepsInvariant(s, moves[0]);
      StaysEnded(s, moves[0], id);
      EndedForGood(Step(s, moves[0]), moves[1..], id);
    }
  }

  lemma StaysEnded(s: State, move: Move, id: SessionId)
    requires Invariant(s) && id in s.chains && id !in s.stores.redis.sessions
    ensures id !in Step(s, move).stores.redis.sessions
  {
    if move.Advance? && move.id < |s.calls| {
      assert CallOk(s, s.calls[move.id]);
    }
    if Effect(s, move).Some? && id in Step(s, move).stores.redis.sessions {
      SessionEffect(s.stores.redis, Effect(s, move).value, id);
    }
  }

  /** The call ended sessions at move `k`, and what ended there has stayed ended in `later`. */
  ghost predicate LoggedOutAt(moves: seq<Move>, i: nat, k: nat, later: Store) {
    && k < |moves| && moves[k].Advance? && moves[k].id == i
    && var s := Exec(Init(), moves[..k]);
       && EndsSessions(s, moves[k])
       && forall id :: id in s.stores.redis.sessions && id !in Step(s, moves[k]).stores.redis.sessions ==>
            id !in later.sessions
  }

  /** Every successful logout ended its sessions at one of its own steps, for good. */
  lemma LogoutsEndSessions(moves: seq<Move>, more: seq<Move>, i: nat)
    requires i < |Exec(Init(), moves).calls| && Exec(Init(), moves).calls[i].LoggedOut?
    ensures exists k: nat :: LoggedOutAt(moves, i, k, Exec(Init(), moves + more).stores.redis)
  {
    var passed := (call: Call) => call.LoggedOut?;
    PassedByCrossing(moves, i, passed);
    var k: nat :| CrossesAt(moves, i, k, passed);
    LogoutCrossing(Exec(Init(), moves[..k]), moves[k]);
    RunSplits(moves, more, k);
    SessionsEndForGood(moves[..k], moves[k], moves[k + 1..] + more);
    assert LoggedOutAt(moves, i, k, Exec(Init(), moves + more).stores.redis);
  }

  lemma SessionsEndForGood(before: seq<Move>, move: Move, after: seq<Move>)
    ensures var s := Exec(Init(), before);
            forall id :: id in s.stores.redis.sessions && id !in Step(s, move).stores.redis.sessions ==>
              id !in Exec(Init(), before + [move] + after).stores.redis.sessions
  {
    var s := Exec(Init(), before);
    ReachableInvariant(before);
    StepKeepsInvariant(s, move);
    ExecSnoc(Init(), before, move);
    ExecConcat(Init(), before + [move], after);
    forall id | id in s.stores.redis.sessions && id !in Step(s, move).stores.redis.sessions
      ensures id !in Exec(Init(), before + [move] + after).stores.redis.sessions
    {
      EndedForGood(Step(s, move), after, id);
    }
  }
}
