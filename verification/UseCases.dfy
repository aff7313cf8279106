/** The account and session use cases as resumable calls. A pending call names the
    one remote command it is about to run; the answer resumes it. Everything a use
    case does between two remote commands happens in `OnAnswer` or `OnReply`. */
module UseCases {
  import opened Domain
  import opened SessionStore
  import opened AccountStore

  /** The identity signed into an access token and its refresh token. */
  datatype Token = Token(user: UserId, session: SessionId, jti: Jti, version: nat)

  datatype Error =
    | InvalidCredentials | Unauthorized | AccountSuspended | PrincipalInactive | UserNotFound
    | Forbidden | InvalidTransition | ConcurrentRoleChange | NotFound | BadRequest | PasswordUnchanged
    | PasswordRefused | Internal

  datatype Call =
    // Login
    | LoginLookup(user: UserId)
    | LoginConfirm(user: UserId, seen: Row)
    | LoginCreate(token: Token)
    | LoginCleanup(token: Token)
    | LoggedIn(token: Token)
    // Refresh
    | RefreshFind(token: Token)
    | RefreshConfirm(token: Token)
    | RefreshRotate(token: Token, renewed: Token)
    | Refreshed(token: Token, renewed: Token)
    // Logout and session deletion
    | LogoutDelete(user: UserId, targets: set<SessionId>)
    | LogoutOthers(user: UserId, session: SessionId)
    | LoggedOut
    // ChangeStatus
    | StatusSnapshot(user: UserId, actor: UserRole, status: UserStatus)
    | StatusBlock(user: UserId, current: UserStatus, status: UserStatus)
    | StatusUnblock(user: UserId, current: UserStatus, status: UserStatus)
    | StatusWrite(user: UserId, current: UserStatus, status: UserStatus)
    | StatusMiss(user: UserId, current: UserStatus, status: UserStatus)
    | StatusChanged(user: UserId, status: UserStatus)
    // ChangeRole
    | RoleSnapshot(user: UserId, actor: UserRole, role: UserRole)
    | RoleWrite(user: UserId, actor: UserRole, expected: UserRole, role: UserRole)
    | RoleMiss(user: UserId, actor: UserRole, expected: UserRole, role: UserRole)
    | RoleChanged(user: UserId, role: UserRole)
    // ChangePassword
    | PasswordLookup(user: UserId, digest: nat)
    | PasswordWrite(user: UserId, digest: nat)
    | PasswordCleanup(user: UserId)
    | PasswordChanged(user: UserId)
    // UpdateUser and ChangeEmail
    | FieldsWrite(user: UserId, email: bool, newDigest: Option<nat>)
    | FieldsWritten(user: UserId)
    // DeleteUser
    | DeleteLookup(user: UserId)
    | DeleteBlock(user: UserId)
    | DeleteRemove(user: UserId)
    | UserDeleted(user: UserId)
    | Failure(error: Error)

  datatype Target = Sql(query: Query) | Redis(command: Command) | Finished

  function Next(call: Call): Target {
    match call
    case LoginLookup(user) => Sql(Read(user))
    case LoginConfirm(user, _) => Sql(Read(user))
    case LoginCreate(t) => Redis(Create(t.session, t.user, t.jti, t.version))
    case LoginCleanup(t) => Redis(DeleteOwned(t.user, {t.session}))
    case RefreshFind(t) => Redis(Find(t.jti, t.user, t.session, t.version))
    case RefreshConfirm(t) => Sql(Read(t.user))
    case RefreshRotate(t, renewed) => Redis(Rotate(t.jti, renewed.jti, t.user, t.session, t.version))
    case LogoutDelete(user, targets) => Redis(DeleteOwned(user, targets))
    case LogoutOthers(user, session) => Redis(DeleteOthers(user, session))
    case StatusSnapshot(user, _, _) => Sql(Read(user))
    case StatusBlock(user, _, _) => Redis(Block(user))
    case StatusUnblock(user, _, _) => Redis(Unblock(user))
    case StatusWrite(user, current, status) => Sql(CasStatus(user, current, status))
    case StatusMiss(user, _, _) => Sql(Read(user))
    case RoleSnapshot(user, _, _) => Sql(Read(user))
    case RoleWrite(user, _, expected, role) => Sql(CasRole(user, expected, role))
    case RoleMiss(user, _, _, _) => Sql(Read(user))
    case PasswordLookup(user, _) => Sql(Read(user))
    case PasswordWrite(user, digest) => Sql(WritePassword(user, digest))
    case PasswordCleanup(user) => Redis(DeleteAll(user))
    case FieldsWrite(user, email, digest) => Sql(WriteFields(user, email, digest))
    case DeleteLookup(user) => Sql(Read(user))
    case DeleteBlock(user) => Redis(Block(user))
    case DeleteRemove(user) => Sql(DeleteRow(user))
    case _ => Finished
  }

  /** What local computation may decide between two commands: whether a password
      matched, whether a new one is admissible and could be hashed, and whether the
      refresh and the access token could be signed. */
  datatype Local = Local(verified: bool, hashed: bool, signed: bool, accessSigned: bool)

  /** The same with the identifiers drawn. */
  datatype Choice = Choice(local: Local, jti: Jti, session: SessionId)

  function AuthenticationStatusError(status: UserStatus): Option<Error> {
    match status
    case Inactive => Some(PrincipalInactive)
    case Suspended => Some(AccountSuspended)
    case Active => None
    case StatusUnknown => Some(Internal)
  }

  /** The authoritative security state must be well formed and carry the version
      that the caller has already proved itself with. */
  function SecurityStateError(row: Row, version: nat, stale: Error): Option<Error> {
    if row.version == 0 || !row.role.IsKnown() || !row.status.IsKnown() then Some(Internal)
    else if row.version != version then Some(stale)
    else AuthenticationStatusError(row.status)
  }

  function ResumeLogin(call: Call, answer: Answer, choice: Choice): Call
    requires call.LoginLookup? || call.LoginConfirm?
  {
    match answer
    case Selected(row) =>
      if call.LoginLookup? then
        if AuthenticationStatusError(row.status).Some? then Failure(AuthenticationStatusError(row.status).value)
        else if !choice.local.verified then Failure(InvalidCredentials)
        else LoginConfirm(call.user, row)
      else
        var error := SecurityStateError(row, call.seen.version, InvalidCredentials);
        if error.Some? then Failure(error.value)
        else if !choice.local.signed then Failure(Internal)
        else LoginCreate(Token(call.user, choice.session, choice.jti, row.version))
    case _ => Failure(InvalidCredentials)
  }

  function ResumeRefresh(token: Token, answer: Answer, choice: Choice): Call {
    match answer
    case Selected(row) =>
      var error := SecurityStateError(row, token.version, Unauthorized);
      if error.Some? then Failure(error.value)
      else if !choice.local.signed || !choice.local.accessSigned then Failure(Internal)
      else RefreshRotate(token, token.(jti := choice.jti))
    case _ => Failure(UserNotFound)
  }

  function ResumeStatusSnapshot(user: UserId, actor: UserRole, requested: UserStatus, answer: Answer): Call {
    match answer
    case Selected(row) =>
      if !actor.CanModifyTargetRole(row.role) then Failure(Forbidden)
      else if !row.status.IsKnown() then Failure(Internal)
      else if !row.status.CanTransitionTo(requested) then Failure(InvalidTransition)
      else if row.status == requested then StatusChanged(user, requested)
      else if row.status == Inactive && requested == Active then StatusWrite(user, row.status, requested)
      else if row.status == Active && requested == Suspended then StatusBlock(user, row.status, requested)
      else if row.status == Suspended && requested == Active then StatusUnblock(user, row.status, requested)
      else Failure(Internal)
    case _ => Failure(UserNotFound)
  }

  function ResumeStatusWrite(call: Call, answer: Answer): Call
    requires call.StatusWrite?
  {
    match answer
    case Selected(row) => if row.status == call.status then StatusChanged(call.user, call.status) else Failure(Internal)
    case NoRow => StatusMiss(call.user, call.current, call.status)
    case Invalid => Failure(Internal)
  }

  function ResumeStatusMiss(call: Call, answer: Answer): Call
    requires call.StatusMiss?
  {
    match ClassifyStatusMiss(answer, call.status)
    case AlreadyApplied(_) => StatusChanged(call.user, call.status)
    case Conflict(_) => Failure(InvalidTransition)
    case RowMissing => Failure(UserNotFound)
    case _ => Failure(Internal)
  }

  predicate AuthorizesRoleMutation(actor: UserRole, target: UserRole, requested: UserRole) {
    actor.CanModifyTargetRole(target) && actor.CanAssignRole(requested)
  }

  function ResumeRoleSnapshot(user: UserId, actor: UserRole, requested: UserRole, answer: Answer): Call {
    match answer
    case Selected(row) =>
      if !row.role.IsKnown() then Failure(Internal)
      else if !AuthorizesRoleMutation(actor, row.role, requested) then Failure(Forbidden)
      else RoleWrite(user, actor, row.role, requested)
    case _ => Failure(UserNotFound)
  }

  function ResumeRoleWrite(call: Call, answer: Answer): Call
    requires call.RoleWrite?
  {
    match answer
    case Selected(row) => if row.role == call.role then RoleChanged(call.user, call.role) else Failure(Internal)
    case NoRow => RoleMiss(call.user, call.actor, call.expected, call.role)
    case Invalid => Failure(BadRequest)
  }

  function ResumeRoleMiss(call: Call, answer: Answer): Call
    requires call.RoleMiss?
  {
    match ClassifyRoleMiss(answer, call.expected, call.role)
    case AlreadyApplied(_) => RoleChanged(call.user, call.role)
    case Conflict(_) => Failure(ConcurrentRoleChange)
    case RowMissing => Failure(UserNotFound)
    case _ => Failure(Internal)
  }

  /** Resumes a call with the answer to its SQL statement. */
  function OnAnswer(call: Call, answer: Answer, choice: Choice): Call
    requires Next(call).Sql?
  {
    match call
    case LoginLookup(_) => ResumeLogin(call, answer, choice)
    case LoginConfirm(_, _) => ResumeLogin(call, answer, choice)
    case RefreshConfirm(token) => ResumeRefresh(token, answer, choice)
    case StatusSnapshot(user, actor, requested) => ResumeStatusSnapshot(user, actor, requested, answer)
    case StatusWrite(_, _, _) => ResumeStatusWrite(call, answer)
    case StatusMiss(_, _, _) => ResumeStatusMiss(call, answer)
    case RoleSnapshot(user, actor, requested) => ResumeRoleSnapshot(user, actor, requested, answer)
    case RoleWrite(_, _, _, _) => ResumeRoleWrite(call, answer)
    case RoleMiss(_, _, _, _) => ResumeRoleMiss(call, answer)
    case PasswordLookup(user, digest) =>
      if !answer.Selected? then Failure(UserNotFound)
      else if !choice.local.verified then Failure(InvalidCredentials)
      else if !choice.local.hashed then Failure(PasswordRefused)
      else PasswordWrite(user, digest)
    case PasswordWrite(user, _) => if answer.Selected? then PasswordCleanup(user) else Failure(UserNotFound)
    case FieldsWrite(user, _, _) =>
      if answer.Selected? then FieldsWritten(user)
      else if answer.NoRow? then Failure(UserNotFound)
      else Failure(BadRequest)
    case DeleteLookup(user) => if answer.Selected? then DeleteBlock(user) else Failure(UserNotFound)
    case DeleteRemove(user) => if answer.Selected? then UserDeleted(user) else Failure(UserNotFound)
  }

  /** Resumes a call with the reply to its Redis script. */
  function OnReply(call: Call, reply: Reply, choice: Choice): Call
    requires Next(call).Redis?
  {
    match call
    case LoginCreate(token) =>
      if reply.Created? then if choice.local.accessSigned then LoggedIn(token) else LoginCleanup(token)
      else if reply.Blocked? then Failure(AccountSuspended)
      else Failure(Internal)
    case LoginCleanup(_) => Failure(Internal)
    case RefreshFind(token) =>
      if reply.Blocked? then Failure(AccountSuspended)
      else if reply.Rejected? then Failure(Unauthorized)
      else if reply.Found? && Confirms(reply, token) then RefreshConfirm(token)
      else if reply.Found? then Failure(Unauthorized)
      else Failure(Internal)
    case RefreshRotate(token, renewed) =>
      if reply.Blocked? then Failure(AccountSuspended)
      else if reply.Rejected? then Failure(Unauthorized)
      else if reply.Rotated? && reply.session == token.session then Refreshed(token, renewed)
      else if reply.Rotated? then Failure(Unauthorized)
      else Failure(Internal)
    case LogoutDelete(_, _) => if reply.Deleted? then LoggedOut else Failure(NotFound)
    case LogoutOthers(_, _) => if reply.Deleted? then LoggedOut else Failure(NotFound)
    case StatusBlock(user, current, status) =>
      if reply.Deleted? then StatusWrite(user, current, status) else Failure(Internal)
    case StatusUnblock(user, current, status) =>
      if reply.Updated? then StatusWrite(user, current, status) else Failure(Internal)
    case PasswordCleanup(user) => PasswordChanged(user)
    case DeleteBlock(user) => if reply.Deleted? then DeleteRemove(user) else Failure(Internal)
  }

  /** The checks that `validateSession` repeats on the record it was handed. */
  predicate Confirms(reply: Reply, token: Token)
    requires reply.Found?
  {
    && reply.record.user == token.user
    && reply.record.jti == token.jti
    && reply.record.version == token.version > 0
    && reply.record.generation > 0
    && reply.session == token.session
  }

  /** A command that reports an error ends the call, except that the password is
      already changed when the session cleanup fails. */
  function OnError(call: Call): Call {
    if call.PasswordCleanup? then PasswordChanged(call.user) else Failure(Internal)
  }

  datatype Stores = Stores(rows: Rows, redis: Store)

  /** One remote command of one call, with the local work that follows it. */
  function Perform(stores: Stores, call: Call, fault: Fault, choice: Choice): (Stores, Call) {
    match Next(call)
    case Finished => (stores, call)
    case Sql(query) =>
      var (rows, answer) := RunQuery(stores.rows, query);
      (if fault.Lost? then stores else stores.(rows := rows),
       if fault.Acknowledged? then OnAnswer(call, answer, choice) else OnError(call))
    case Redis(command) =>
      var (redis, reply) := Run(stores.redis, command);
      (if fault.Lost? then stores else stores.(redis := redis),
       if fault.Acknowledged? then OnReply(call, reply, choice) else OnError(call))
  }
}
