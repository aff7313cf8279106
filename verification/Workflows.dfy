/** The use cases as the straight-line methods a server runs, over the two mutable
    stores. Each is proved equal to the completed run of its resumable call. */
module Workflows {
  import opened Domain
  import opened SessionStore
  import opened AccountStore
  import opened UseCases
  import opened SerialCalls

  /** What a permitted change of status does next. */
  function AccessStep(user: UserId, current: UserStatus, requested: UserStatus): Call {
    if current == Active then StatusBlock(user, current, requested)
    else if current == Suspended then StatusUnblock(user, current, requested)
    else StatusWrite(user, current, requested)
  }

  class Application {
    const users: UserRepository
    const sessions: SessionRepository

    constructor (users: UserRepository, sessions: SessionRepository)
      ensures this.users == users && this.sessions == sessions
    {
      this.users := users;
      this.sessions := sessions;
    }

    ghost function View(): Stores
      reads users, sessions
    {
      Stores(users.rows, sessions.View())
    }

    method ChangeStatus(user: UserId, actor: UserRole, requested: UserStatus, ghost choice: Choice) returns (result: Call)
      modifies users, sessions
      ensures CompletesAs(old(View()), StatusSnapshot(user, actor, requested), View(), result, choice)
    {
      ghost var start, call := View(), StatusSnapshot(user, actor, requested);
      ReachesItself(start, call, choice);
      AfterSql(start, call, start, call, choice);
      var answer := users.Find(user);
      if !answer.Selected? {
        return Failure(UserNotFound);
      }
      var target := answer.row;
      if !actor.CanModifyTargetRole(target.role) {
        return Failure(Forbidden);
      }
      var current := target.status;
      if !current.IsKnown() {
        return Failure(Internal);
      }
      if !current.CanTransitionTo(requested) {
        return Failure(InvalidTransition);
      }
      if current == requested {
        return StatusChanged(user, requested);
      }
      result := ChangeAccess(user, current, requested, start, call, choice);
      if !Next(result).Finished? {
        result := WriteStatus(user, current, requested, start, call, choice);
      }
    }

    method WriteStatus(
      user: UserId, current: UserStatus, requested: UserStatus, ghost start: Stores, ghost call: Call, ghost choice: Choice
    )
      returns (result: Call)
      requires Reaches(start, call, View(), StatusWrite(user, current, requested), choice)
      modifies users
      ensures CompletesAs(start, call, View(), result, choice)
    {
      AfterStatusWrite(start, call, View(), user, current, requested, choice);
      var outcome := users.UpdateStatus(user, current, requested);
      result := StatusResult(user, requested, outcome);
    }

    /** Closes or reopens the access of a changing account before its status is written. */
    method ChangeAccess(
      user: UserId, current: UserStatus, requested: UserStatus, ghost start: Stores, ghost call: Call, ghost choice: Choice
    )
      returns (result: Call)
      requires current.CanTransitionTo(requested) && current != requested
      requires Reaches(start, call, View(), AccessStep(user, current, requested), choice)
      modifies sessions
      ensures if result == StatusWrite(user, current, requested) then Reaches(start, call, View(), result, choice)
              else CompletesAs(start, call, View(), result, choice)
    {
      if current == Active {
        AfterRedis(start, call, View(), StatusBlock(user, current, requested), choice);
        var reply := sessions.BlockAndDeleteAllByUser(user);
        if !reply.Deleted? {
          return Failure(Internal);
        }
      } else if current == Suspended {
        AfterRedis(start, call, View(), StatusUnblock(user, current, requested), choice);
        var reply := sessions.UnblockUser(user);
        if !reply.Updated? {
          return Failure(Internal);
        }
      }
      result := StatusWrite(user, current, requested);
    }

    method ChangeRole(user: UserId, actor: UserRole, requested: UserRole, ghost choice: Choice) returns (result: Call)
      modifies users
      ensures requested.IsKnown() ==>
        CompletesAs(old(View()), RoleSnapshot(user, actor, requested), View(), result, choice)
      ensures !requested.IsKnown() ==> View() == old(View()) && result == Failure(BadRequest)
    {
      if !requested.IsKnown() {
        return Failure(BadRequest);
      }
      ghost var start, call := View(), RoleSnapshot(user, actor, requested);
      ReachesItself(start, call, choice);
      AfterSql(start, call, start, call, choice);
      var answer := users.Find(user);
      if !answer.Selected? {
        return Failure(UserNotFound);
      }
      var target := answer.row;
      if !target.role.IsKnown() {
        return Failure(Internal);
      }
      if !AuthorizesRoleMutation(actor, target.role, requested) {
        return Failure(Forbidden);
      }
      result := WriteRole(user, actor, target.role, requested, start, call, choice);
    }

    method WriteRole(
      user: UserId, actor: UserRole, expected: UserRole, requested: UserRole, ghost start: Stores, ghost call: Call,
      ghost choice: Choice
    )
      returns (result: Call)
      requires expected.IsKnown() && requested.IsKnown()
      requires Reaches(start, call, View(), RoleWrite(user, actor, expected, requested), choice)
      modifies users
      ensures CompletesAs(start, call, View(), result, choice)
    {
      AfterRoleWrite(start, call, View(), user, actor, expected, requested, choice);
      var outcome := users.UpdateRole(user, expected, requested);
      result := RoleResult(user, requested, outcome);
    }

    /** `digest` is what the new password hashes to, if it can be hashed. */
    method ChangePassword(user: UserId, current: string, renewed: string, digest: nat, choice: Choice)
      returns (result: Call)
      modifies users, sessions
      ensures current != renewed ==> CompletesAs(old(View()), PasswordLookup(user, digest), View(), result, choice)
      ensures current == renewed ==> View() == old(View()) && result == Failure(PasswordUnchanged)
    {
      if current == renewed {
        return Failure(PasswordUnchanged);
      }
      ghost var start, call := View(), PasswordLookup(user, digest);
      ReachesItself(start, call, choice);
      AfterSql(start, call, start, call, choice);
      var answer := users.Find(user);
      if !answer.Selected? {
        return Failure(UserNotFound);
      }
      if !choice.local.verified {
        return Failure(InvalidCredentials);
      }
      if !choice.local.hashed {
        return Failure(PasswordRefused);
      }
      result := WritePasswordDigest(user, digest, start, call, choice);
    }

    /** The write decides success; the cleanup after it may fail. */
    method WritePasswordDigest(user: UserId, digest: nat, ghost start: Stores, ghost call: Call, ghost choice: Choice)
      returns (result: Call)
      requires Reaches(start, call, View(), PasswordWrite(user, digest), choice)
      modifies users, sessions
      ensures CompletesAs(start, call, View(), result, choice)
    {
      AfterSql(start, call, View(), PasswordWrite(user, digest), choice);
      var answer := users.UpdatePassword(user, digest);
      if !answer.Selected? {
        return Failure(UserNotFound);
      }
      AfterRedis(start, call, View(), PasswordCleanup(user), choice);
      var _ := sessions.DeleteAllByUser(user);
      result := PasswordChanged(user);
    }

    /** `digest` is what the new password hashes to, unless it is refused or hashing fails. */
    method UpdateUser(user: UserId, email: string, digest: Option<nat>, ghost choice: Choice) returns (result: Call)
      modifies users
      ensures digest.Some? ==>
        CompletesAs(old(View()), FieldsWrite(user, email != "", digest), View(), result, choice)
      ensures digest.None? ==> View() == old(View()) && result == Failure(PasswordRefused)
    {
      if digest.None? {
        return Failure(PasswordRefused);
      }
      result := WriteFieldsOf(user, email, digest, choice);
    }

    method ChangeEmail(user: UserId, email: string, ghost choice: Choice) returns (result: Call)
      modifies users
      ensures CompletesAs(old(View()), FieldsWrite(user, email != "", None), View(), result, choice)
    {
      result := WriteFieldsOf(user, email, None, choice);
    }

    method WriteFieldsOf(user: UserId, email: string, digest: Option<nat>, ghost choice: Choice) returns (result: Call)
      modifies users
      ensures CompletesAs(old(View()), FieldsWrite(user, email != "", digest), View(), result, choice)
    {
      ghost var start, call := View(), FieldsWrite(user, email != "", digest);
      ReachesItself(start, call, choice);
      AfterSql(start, call, start, call, choice);
      var answer := users.UpdateUserFields(user, email != "", digest);
      match answer
      case Selected(_) => result := FieldsWritten(user);
      case NoRow => result := Failure(UserNotFound);
      case Invalid => result := Failure(BadRequest);
    }

    method DeleteUser(user: UserId, ghost choice: Choice) returns (result: Call)
      modifies users, sessions
      ensures CompletesAs(old(View()), DeleteLookup(user), View(), result, choice)
    {
      ghost var start, call := View(), DeleteLookup(user);
      ReachesItself(start, call, choice);
      AfterSql(start, call, start, call, choice);
      var answer := users.Find(user);
      if !answer.Selected? {
        return Failure(UserNotFound);
      }
      result := CloseAndRemove(user, start, call, choice);
    }

    /** Blocks the account before its row goes. */
    method CloseAndRemove(user: UserId, ghost start: Stores, ghost call: Call, ghost choice: Choice) returns (result: Call)
      requires Reaches(start, call, View(), DeleteBlock(user), choice)
      modifies users, sessions
      ensures CompletesAs(start, call, View(), result, choice)
    {
      AfterRedis(start, call, View(), DeleteBlock(user), choice);
      var reply := sessions.BlockAndDeleteAllByUser(user);
      if !reply.Deleted? {
        return Failure(Internal);
      }
      result := RemoveRow(user, start, call, choice);
    }

    method RemoveRow(user: UserId, ghost start: Stores, ghost call: Call, ghost choice: Choice) returns (result: Call)
      requires Reaches(start, call, View(), DeleteRemove(user), choice)
      modifies users
      ensures CompletesAs(start, call, View(), result, choice)
    {
      AfterSql(start, call, View(), DeleteRemove(user), choice);
      var answer := users.Delete(user);
      result := if answer.Selected? then UserDeleted(user) else Failure(UserNotFound);
    }

    method Login(user: UserId, choice: Choice) returns (result: Call)
      modifies sessions
      ensures CompletesAs(old(View()), LoginLookup(user), View(), result, choice)
    {
      ghost var start, call := View(), LoginLookup(user);
      ReachesItself(start, call, choice);
      AfterSql(start, call, start, call, choice);
      var answer := users.Find(user);
      if !answer.Selected? {
        return Failure(InvalidCredentials);
      }
      var seen := answer.row;
      var unavailable := AuthenticationStatusError(seen.status);
      if unavailable.Some? {
        return Failure(unavailable.value);
      }
      if !choice.local.verified {
        return Failure(InvalidCredentials);
      }
      AfterSql(start, call, View(), LoginConfirm(user, seen), choice);
      answer := users.Find(user);
      var error := SecurityStateError(answer.row, seen.version, InvalidCredentials);
      if error.Some? {
        return Failure(error.value);
      }
      if !choice.local.signed {
        return Failure(Internal);
      }
      var token := Token(user, choice.session, choice.jti, answer.row.version);
      result := CreateSession(token, start, call, choice);
    }

    /** Creates the session, and takes it back when the access token cannot be signed. */
    method CreateSession(token: Token, ghost start: Stores, ghost call: Call, choice: Choice) returns (result: Call)
      requires Reaches(start, call, View(), LoginCreate(token), choice)
      modifies sessions
      ensures CompletesAs(start, call, View(), result, choice)
    {
      AfterRedis(start, call, View(), LoginCreate(token), choice);
      var reply := sessions.Create(token.session, token.user, token.jti, token.version);
      match reply
      case Created(_) =>
        result := LoggedIn(token);
        if !choice.local.accessSigned {
          result := CleanUp(token, start, call, choice);
        }
      case Blocked => result := Failure(AccountSuspended);
      case _ => result := Failure(Internal);
    }

    method CleanUp(token: Token, ghost start: Stores, ghost call: Call, ghost choice: Choice) returns (result: Call)
      requires Reaches(start, call, View(), LoginCleanup(token), choice)
      modifies sessions
      ensures CompletesAs(start, call, View(), result, choice)
    {
      AfterRedis(start, call, View(), LoginCleanup(token), choice);
      assert Members([token.session]) == {token.session};
      var _ := sessions.DeleteByUser(token.user, [token.session]);
      result := Failure(Internal);
    }

    method Refresh(token: Token, choice: Choice) returns (result: Call)
      modifies sessions
      ensures CompletesAs(old(View()), RefreshFind(token), View(), result, choice)
    {
      ghost var start, call := View(), RefreshFind(token);
      ReachesItself(start, call, choice);
      AfterRedis(start, call, start, call, choice);
      var reply := sessions.FindByJTI(token.jti, token.user, token.session, token.version);
      if reply.Blocked? {
        return Failure(AccountSuspended);
      }
      if reply.Rejected? || (reply.Found? && !Confirms(reply, token)) {
        return Failure(Unauthorized);
      }
      if !reply.Found? {
        return Failure(Internal);
      }
      result := RenewConfirmed(token, start, call, choice);
    }

    /** Checks the account behind a valid session, then renews the session. */
    method RenewConfirmed(token: Token, ghost start: Stores, ghost call: Call, choice: Choice) returns (result: Call)
      requires Reaches(start, call, View(), RefreshConfirm(token), choice)
      modifies sessions
      ensures CompletesAs(start, call, View(), result, choice)
    {
      AfterSql(start, call, View(), RefreshConfirm(token), choice);
      var answer := users.Find(token.user);
      if !answer.Selected? {
        return Failure(UserNotFound);
      }
      var error := SecurityStateError(answer.row, token.version, Unauthorized);
      if error.Some? {
        return Failure(error.value);
      }
      if !choice.local.signed || !choice.local.accessSigned {
        return Failure(Internal);
      }
      result := RotateSessionJTI(token, token.(jti := choice.jti), start, call, choice);
    }

    method RotateSessionJTI(token: Token, renewed: Token, ghost start: Stores, ghost call: Call, ghost choice: Choice)
      returns (result: Call)
      requires Reaches(start, call, View(), RefreshRotate(token, renewed), choice)
      modifies sessions
      ensures CompletesAs(start, call, View(), result, choice)
    {
      AfterRedis(start, call, View(), RefreshRotate(token, renewed), choice);
      var reply := sessions.RotateJTI(token.jti, renewed.jti, token.user, token.session, token.version);
      match reply
      case Rotated(session) =>
        result := if session == token.session then Refreshed(token, renewed) else Failure(Unauthorized);
      case Blocked => result := Failure(AccountSuspended);
      case Rejected => result := Failure(Unauthorized);
      case _ => result := Failure(Internal);
    }

    method Logout(user: UserId, targets: seq<SessionId>, ghost choice: Choice) returns (result: Call)
      modifies sessions
      ensures CompletesAs(old(View()), LogoutDelete(user, Members(targets)), View(), result, choice)
    {
      ghost var start, call := View(), LogoutDelete(user, Members(targets));
      ReachesItself(start, call, choice);
      AfterRedis(start, call, start, call, choice);
      var reply := sessions.DeleteByUser(user, targets);
      result := if reply.Deleted? then LoggedOut else Failure(NotFound);
    }
  }
}
