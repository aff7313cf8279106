/** What each use case, running alone and without failures, ends in and leaves stored:
    for every account, every session store and every decision, success exactly when it
    is due, and the reason for every refusal. */
module Outcomes {
  import opened Domain
  import opened SessionStore
  import opened SessionLaws
  import opened AccountStore
  import opened UseCases
  import opened SerialCalls

  /** An active account whose security state can be trusted, at the given credential version. */
  predicate Healthy(row: Row, version: nat) {
    row.version == version > 0 && row.status == Active && row.role in {Client, Operator, Admin}
  }

  // ----- Login -----

  /** The right password for a healthy account, and a signed refresh token. */
  predicate LoginPasses(rows: Rows, user: UserId, choice: Choice) {
    user in rows && Healthy(rows[user], rows[user].version) && choice.local.verified && choice.local.signed
  }

  /** A session of the user can be created. */
  predicate CanOpen(redis: Store, user: UserId) {
    user !in redis.access || IsOpen(redis, user)
  }

  function NewToken(rows: Rows, user: UserId, choice: Choice): Token
    requires user in rows
  {
    Token(user, choice.session, choice.jti, rows[user].version)
  }

  lemma LookupPerforms(stores: Stores, user: UserId, choice: Choice)
    ensures Perform(stores, LoginLookup(user), Acknowledged, choice)
         == (stores,
             if user !in stores.rows then Failure(InvalidCredentials)
             else
               match stores.rows[user].status
               case StatusUnknown => Failure(Internal)
               case Inactive => Failure(PrincipalInactive)
               case Suspended => Failure(AccountSuspended)
               case Active =>
                 if choice.local.verified then LoginConfirm(user, stores.rows[user]) else Failure(InvalidCredentials))
  {
  }

  lemma ConfirmPerforms(stores: Stores, user: UserId, choice: Choice)
    requires user in stores.rows && stores.rows[user].status == Active
    ensures Perform(stores, LoginConfirm(user, stores.rows[user]), Acknowledged, choice)
         == (stores,
             if Healthy(stores.rows[user], stores.rows[user].version) && choice.local.signed
             then LoginCreate(NewToken(stores.rows, user, choice)) else Failure(Internal))
  {
  }

  /** Whoever does not pass leaves everything as it was; in particular a wrong password
      for an active account is told from an inactive or suspended account. */
  lemma LoginRefuses(stores: Stores, user: UserId, choice: Choice)
    requires !LoginPasses(stores.rows, user, choice)
    ensures var (after, end) := Complete(stores, LoginLookup(user), choice);
            && after == stores && end.Failure?
            && (user !in stores.rows ==> end == Failure(InvalidCredentials))
            && (user in stores.rows ==>
                  var status := stores.rows[user].status;
                  && (status == Inactive ==> end == Failure(PrincipalInactive))
                  && (status == Suspended ==> end == Failure(AccountSuspended))
                  && (status == Active && !choice.local.verified ==> end == Failure(InvalidCredentials)))
  {
    LookupPerforms(stores, user, choice);
    var moved := Perform(stores, LoginLookup(user), Acknowledged, choice).1;
    if moved.LoginConfirm? {
      ConfirmPerforms(stores, user, choice);
      Continues(stores, LoginLookup(user), stores, moved, choice);
      Ends(stores, moved, stores, Failure(Internal), choice);
    } else {
      Ends(stores, LoginLookup(user), stores, moved, choice);
    }
  }

  lemma LoginReachesCreate(stores: Stores, user: UserId, choice: Choice)
    requires LoginPasses(stores.rows, user, choice)
    ensures Complete(stores, LoginLookup(user), choice)
         == Complete(stores, LoginCreate(NewToken(stores.rows, user, choice)), choice)
  {
    var confirm := LoginConfirm(user, stores.rows[user]);
    LookupPerforms(stores, user, choice);
    ConfirmPerforms(stores, user, choice);
    Continues(stores, LoginLookup(user), stores, confirm, choice);
    Continues(stores, confirm, stores, LoginCreate(NewToken(stores.rows, user, choice)), choice);
  }

  lemma CreatePerforms(stores: Stores, token: Token, choice: Choice)
    ensures var (redis, reply) := Run(stores.redis, Create(token.session, token.user, token.jti, token.version));
            Perform(stores, LoginCreate(token), Acknowledged, choice)
            == (stores.(redis := redis),
                if reply.Created? then if choice.local.accessSigned then LoggedIn(token) else LoginCleanup(token)
                else Failure(if reply.Blocked? then AccountSuspended else Internal))
  {
  }

  lemma CleanupPerforms(stores: Stores, token: Token, choice: Choice)
    ensures Perform(stores, LoginCleanup(token), Acknowledged, choice)
         == (stores.(redis := Run(stores.redis, DeleteOwned(token.user, {token.session})).0), Failure(Internal))
  {
  }

  lemma CreateOpens(stores: Stores, token: Token, choice: Choice)
    requires token.version > 0 && CanOpen(stores.redis, token.user) && choice.local.accessSigned
    ensures var (after, end) := Complete(stores, LoginCreate(token), choice);
            && end == LoggedIn(token) && after.rows == stores.rows
            && after.redis == Run(stores.redis, Create(token.session, token.user, token.jti, token.version)).0
            && Admits(after.redis, token.jti, token.user, token.session, token.version)
  {
    CreatePerforms(stores, token, choice);
    CreatedExactlyWhen(stores.redis, token.session, token.user, token.jti, token.version);
    var redis := Run(stores.redis, Create(token.session, token.user, token.jti, token.version)).0;
    Ends(stores, LoginCreate(token), stores.(redis := redis), LoggedIn(token), choice);
  }

  /** A session whose access token cannot be signed is taken back. */
  lemma CreateTakenBack(stores: Stores, token: Token, choice: Choice)
    requires token.version > 0 && CanOpen(stores.redis, token.user) && !choice.local.accessSigned
    ensures var (after, end) := Complete(stores, LoginCreate(token), choice);
            && end == Failure(Internal) && after.rows == stores.rows
            && after.redis.sessions == stores.redis.sessions - {token.session}
  {
    var created := Run(stores.redis, Create(token.session, token.user, token.jti, token.version)).0;
    CreatedExactlyWhen(stores.redis, token.session, token.user, token.jti, token.version);
    CreatePerforms(stores, token, choice);
    Continues(stores, LoginCreate(token), stores.(redis := created), LoginCleanup(token), choice);
    CleanupEnds(stores.(redis := created), token, choice);
  }

  lemma CleanupEnds(stores: Stores, token: Token, choice: Choice)
    requires token.session in stores.redis.sessions && stores.redis.sessions[token.session].user == token.user
    ensures var (after, end) := Complete(stores, LoginCleanup(token), choice);
            end == Failure(Internal) && after.rows == stores.rows
            && after.redis.sessions == stores.redis.sessions - {token.session}
  {
    CleanupPerforms(stores, token, choice);
    DeletedExactlyWhenOwned(stores.redis, token.user, {token.session});
    var redis := Run(stores.redis, DeleteOwned(token.user, {token.session})).0;
    Ends(stores, LoginCleanup(token), stores.(redis := redis), Failure(Internal), choice);
  }

  lemma CreateRefuses(stores: Stores, token: Token, choice: Choice)
    requires !CanOpen(stores.redis, token.user)
    ensures var (after, end) := Complete(stores, LoginCreate(token), choice);
            && after == stores && end.Failure?
            && (token.version > 0 && stores.redis.access[token.user].Usable() ==> end == Failure(AccountSuspended))
  {
    CreatePerforms(stores, token, choice);
    CreatedExactlyWhen(stores.redis, token.session, token.user, token.jti, token.version);
    Ends(stores, LoginCreate(token), stores, Perform(stores, LoginCreate(token), Acknowledged, choice).1, choice);
  }

  /** A login succeeds exactly with the right password for a healthy, open account and
      both tokens signed. Its token then carries the stored version, and is admitted. */
  lemma LoginSucceedsExactlyWhen(stores: Stores, user: UserId, choice: Choice)
    ensures var (after, end) := Complete(stores, LoginLookup(user), choice);
            && (end.LoggedIn? <==>
                  LoginPasses(stores.rows, user, choice) && CanOpen(stores.redis, user) && choice.local.accessSigned)
            && (end.LoggedIn? ==>
                  var token := NewToken(stores.rows, user, choice);
                  && end == LoggedIn(token) && after.rows == stores.rows
                  && Admits(after.redis, token.jti, user, token.session, token.version))
            && (!end.LoggedIn? ==>
                  end.Failure? && after.rows == stores.rows
                  && after.redis.sessions == stores.redis.sessions
                     - if LoginPasses(stores.rows, user, choice) && CanOpen(stores.redis, user) then {choice.session} else {})
  {
    if LoginPasses(stores.rows, user, choice) {
      LoginReachesCreate(stores, user, choice);
      var token := NewToken(stores.rows, user, choice);
      if !CanOpen(stores.redis, user) {
        CreateRefuses(stores, token, choice);
        assert stores.redis.sessions - {} == stores.redis.sessions;
      } else if choice.local.accessSigned {
        CreateOpens(stores, token, choice);
      } else {
        CreateTakenBack(stores, token, choice);
      }
    } else {
      LoginRefuses(stores, user, choice);
      assert stores.redis.sessions - {} == stores.redis.sessions;
    }
  }

  // ----- Refresh -----

  predicate AdmitsToken(redis: Store, token: Token) {
    Admits(redis, token.jti, token.user, token.session, token.version)
  }

  /** The account behind the token is healthy at its version, and both new tokens are signed. */
  predicate RefreshPasses(rows: Rows, token: Token, choice: Choice) {
    token.user in rows && Healthy(rows[token.user], token.version) && choice.local.signed && choice.local.accessSigned
  }

  lemma FindPerforms(stores: Stores, token: Token, choice: Choice)
    ensures var (redis, reply) := Run(stores.redis, Find(token.jti, token.user, token.session, token.version));
            Perform(stores, RefreshFind(token), Acknowledged, choice)
            == (stores.(redis := redis),
                if AdmitsToken(stores.redis, token) then RefreshConfirm(token)
                else Failure(if reply.Blocked? then AccountSuspended else if reply.Rejected? then Unauthorized else Internal))
  {
    FoundExactlyWhen(stores.redis, token.jti, token.user, token.session, token.version);
  }

  /** A token that is not admitted is refused, and a blocked account is told so. */
  lemma RefreshNotAdmitted(stores: Stores, token: Token, choice: Choice)
    requires !AdmitsToken(stores.redis, token)
    ensures var (after, end) := Complete(stores, RefreshFind(token), choice);
            && after == stores.(redis := Run(stores.redis, Find(token.jti, token.user, token.session, token.version)).0)
            && end.Failure?
            && (token.version > 0 && token.user in stores.redis.access && stores.redis.access[token.user].Usable() ==>
                  end == Failure(if stores.redis.access[token.user].blocked then AccountSuspended else Unauthorized))
  {
    FindPerforms(stores, token, choice);
    FoundExactlyWhen(stores.redis, token.jti, token.user, token.session, token.version);
    var (after, end) := Perform(stores, RefreshFind(token), Acknowledged, choice);
    Ends(stores, RefreshFind(token), after, end, choice);
  }

  lemma RefreshConfirmPerforms(stores: Stores, token: Token, choice: Choice)
    ensures Perform(stores, RefreshConfirm(token), Acknowledged, choice)
         == (stores,
             if token.user !in stores.rows then Failure(UserNotFound)
             else
               var row := stores.rows[token.user];
               if row.version == 0 || row.role == RoleUnknown || row.status == StatusUnknown then Failure(Internal)
               else if row.version != token.version then Failure(Unauthorized)
               else if row.status == Inactive then Failure(PrincipalInactive)
               else if row.status == Suspended then Failure(AccountSuspended)
               else if !choice.local.signed || !choice.local.accessSigned then Failure(Internal)
               else RefreshRotate(token, token.(jti := choice.jti)))
  {
  }

  /** An admitted token is refused for a missing, changed, inactive or suspended account. */
  lemma RefreshRefuses(stores: Stores, token: Token, choice: Choice)
    requires !RefreshPasses(stores.rows, token, choice)
    ensures var (after, end) := Complete(stores, RefreshConfirm(token), choice);
            && after == stores && end.Failure?
            && (token.user !in stores.rows ==> end == Failure(UserNotFound))
  {
    RefreshConfirmPerforms(stores, token, choice);
    Ends(stores, RefreshConfirm(token), stores, Perform(stores, RefreshConfirm(token), Acknowledged, choice).1, choice);
  }

  lemma RotatePerforms(stores: Stores, token: Token, renewed: Token, choice: Choice)
    requires AdmitsToken(stores.redis, token)
    ensures var redis := Run(stores.redis, Rotate(token.jti, renewed.jti, token.user, token.session, token.version)).0;
            Perform(stores, RefreshRotate(token, renewed), Acknowledged, choice)
            == (stores.(redis := redis), Refreshed(token, renewed))
  {
    RotatedExactlyWhen(stores.redis, token.jti, renewed.jti, token.user, token.session, token.version);
  }

  lemma RefreshRotates(stores: Stores, token: Token, choice: Choice)
    requires AdmitsToken(stores.redis, token) && RefreshPasses(stores.rows, token, choice)
    ensures var (after, end) := Complete(stores, RefreshConfirm(token), choice);
            var renewed := token.(jti := choice.jti);
            && end == Refreshed(token, renewed) && after.rows == stores.rows
            && AdmitsToken(after.redis, renewed)
            && after.redis.sessions
               == stores.redis.sessions[token.session := stores.redis.sessions[token.session].(jti := choice.jti)]
  {
    var renewed := token.(jti := choice.jti);
    var redis := Run(stores.redis, Rotate(token.jti, choice.jti, token.user, token.session, token.version)).0;
    RefreshConfirmPerforms(stores, token, choice);
    Continues(stores, RefreshConfirm(token), stores, RefreshRotate(token, renewed), choice);
    RotatePerforms(stores, token, renewed, choice);
    Ends(stores, RefreshRotate(token, renewed), stores.(redis := redis), Refreshed(token, renewed), choice);
    RotatedExactlyWhen(stores.redis, token.jti, choice.jti, token.user, token.session, token.version);
  }

  /** A refresh succeeds exactly for an admitted token of a healthy account at the token's
      version with both new tokens signed. Its session then goes on under the new token;
      otherwise no row and no session changes. */
  lemma RefreshSucceedsExactlyWhen(stores: Stores, token: Token, choice: Choice)
    ensures var (after, end) := Complete(stores, RefreshFind(token), choice);
            && (end.Refreshed? <==> AdmitsToken(stores.redis, token) && RefreshPasses(stores.rows, token, choice))
            && (end.Refreshed? ==>
                  && end == Refreshed(token, token.(jti := choice.jti)) && after.rows == stores.rows
                  && AdmitsToken(after.redis, token.(jti := choice.jti)))
            && (!end.Refreshed? ==>
                  && end.Failure? && after.rows == stores.rows
                  && after.redis.sessions == stores.redis.sessions && after.redis.access == stores.redis.access)
  {
    if !AdmitsToken(stores.redis, token) {
      RefreshNotAdmitted(stores, token, choice);
      FindKeepsIdentities(stores.redis, Find(token.jti, token.user, token.session, token.version), 0, 0, 0, 0);
    } else {
      FindPerforms(stores, token, choice);
      FoundExactlyWhen(stores.redis, token.jti, token.user, token.session, token.version);
      Continues(stores, RefreshFind(token), stores, RefreshConfirm(token), choice);
      if RefreshPasses(stores.rows, token, choice) {
        RefreshRotates(stores, token, choice);
      } else {
        RefreshRefuses(stores, token, choice);
      }
    }
  }

  // ----- ChangeStatus -----

  function WithStatus(stores: Stores, user: UserId, status: UserStatus): Stores
    requires user in stores.rows
  {
    var row := stores.rows[user];
    stores.(rows := stores.rows[user := Row(row.digest, status, row.role, row.version)])
  }

  /** The one read before a status change decides: the actor's rank over the target first,
      then the graph. */
  lemma SnapshotPerforms(stores: Stores, user: UserId, actor: UserRole, requested: UserStatus, choice: Choice)
    ensures Perform(stores, StatusSnapshot(user, actor, requested), Acknowledged, choice)
         == (stores,
             if user !in stores.rows then Failure(UserNotFound)
             else if !Outranks(actor, stores.rows[user].role) then Failure(Forbidden)
             else
               match (stores.rows[user].status, requested)
               case (StatusUnknown, _) => Failure(Internal)
               case (Inactive, Active) => StatusWrite(user, Inactive, Active)
               case (Active, Suspended) => StatusBlock(user, Active, Suspended)
               case (Suspended, Active) => StatusUnblock(user, Suspended, Active)
               case (current, _) => if current == requested then StatusChanged(user, requested) else Failure(InvalidTransition))
  {
    if user in stores.rows {
      RankDecides(actor, stores.rows[user].role);
    }
  }

  lemma StatusEnds(stores: Stores, user: UserId, actor: UserRole, requested: UserStatus, choice: Choice)
    requires Next(Perform(stores, StatusSnapshot(user, actor, requested), Acknowledged, choice).1).Finished?
    ensures Complete(stores, StatusSnapshot(user, actor, requested), choice)
         == Perform(stores, StatusSnapshot(user, actor, requested), Acknowledged, choice)
  {
    var (after, end) := Perform(stores, StatusSnapshot(user, actor, requested), Acknowledged, choice);
    Ends(stores, StatusSnapshot(user, actor, requested), after, end, choice);
  }

  /** Nobody changes the status of an account that the actor does not outrank. */
  lemma StatusForbidden(stores: Stores, user: UserId, actor: UserRole, requested: UserStatus, choice: Choice)
    requires user in stores.rows && !Outranks(actor, stores.rows[user].role)
    ensures Complete(stores, StatusSnapshot(user, actor, requested), choice) == (stores, Failure(Forbidden))
  {
    SnapshotPerforms(stores, user, actor, requested, choice);
    StatusEnds(stores, user, actor, requested, choice);
  }

  /** With the rank to do it, a request that is not one of the three changes changes nothing:
      repeating a status succeeds, anything else is refused. */
  lemma StatusUnchanged(stores: Stores, user: UserId, actor: UserRole, requested: UserStatus, choice: Choice)
    requires user in stores.rows && Outranks(actor, stores.rows[user].role)
    requires (stores.rows[user].status, requested) !in {(Inactive, Active), (Active, Suspended), (Suspended, Active)}
    ensures Complete(stores, StatusSnapshot(user, actor, requested), choice)
         == (stores, if stores.rows[user].status == StatusUnknown then Failure(Internal)
                     else if stores.rows[user].status == requested then StatusChanged(user, requested)
                     else Failure(InvalidTransition))
  {
    SnapshotPerforms(stores, user, actor, requested, choice);
    StatusEnds(stores, user, actor, requested, choice);
  }

  lemma StatusMissing(stores: Stores, user: UserId, actor: UserRole, requested: UserStatus, choice: Choice)
    requires user !in stores.rows
    ensures Complete(stores, StatusSnapshot(user, actor, requested), choice) == (stores, Failure(UserNotFound))
  {
    SnapshotPerforms(stores, user, actor, requested, choice);
    StatusEnds(stores, user, actor, requested, choice);
  }

  lemma StatusWritePerforms(stores: Stores, user: UserId, current: UserStatus, requested: UserStatus, choice: Choice)
    requires user in stores.rows && stores.rows[user].status == current
    requires current.IsKnown() && requested.IsKnown() && current != requested
    ensures Perform(stores, StatusWrite(user, current, requested), Acknowledged, choice)
         == (WithStatus(stores, user, requested), StatusChanged(user, requested))
  {
    StatusIsSwapped(stores.rows, user, current, requested);
  }

  /** A compare-and-set that finds the status it expects ends the call. */
  lemma StatusWritten(stores: Stores, user: UserId, current: UserStatus, requested: UserStatus, choice: Choice)
    requires user in stores.rows && stores.rows[user].status == current
    requires current.IsKnown() && requested.IsKnown() && current != requested
    ensures Complete(stores, StatusWrite(user, current, requested), choice)
         == (WithStatus(stores, user, requested), StatusChanged(user, requested))
  {
    StatusWritePerforms(stores, user, current, requested, choice);
    var write, after := StatusWrite(user, current, requested), WithStatus(stores, user, requested);
    Ends(stores, write, after, StatusChanged(user, requested), choice);
  }

  /** A first activation writes the status and leaves the sessions alone. */
  lemma Activation(stores: Stores, user: UserId, actor: UserRole, choice: Choice)
    requires user in stores.rows && Outranks(actor, stores.rows[user].role) && stores.rows[user].status == Inactive
    ensures Complete(stores, StatusSnapshot(user, actor, Active), choice)
         == (WithStatus(stores, user, Active), StatusChanged(user, Active))
  {
    SnapshotPerforms(stores, user, actor, Active, choice);
    Continues(stores, StatusSnapshot(user, actor, Active), stores, StatusWrite(user, Inactive, Active), choice);
    StatusWritten(stores, user, Inactive, Active, choice);
  }

  lemma StatusBlockPerforms(stores: Stores, user: UserId, choice: Choice)
    ensures var (redis, reply) := Run(stores.redis, Block(user));
            Perform(stores, StatusBlock(user, Active, Suspended), Acknowledged, choice)
            == (stores.(redis := redis), if reply.Deleted? then StatusWrite(user, Active, Suspended) else Failure(Internal))
  {
  }

  /** A suspension blocks and then writes the status; when the block is refused nothing changes. */
  lemma Suspension(stores: Stores, user: UserId, actor: UserRole, choice: Choice)
    requires user in stores.rows && Outranks(actor, stores.rows[user].role) && stores.rows[user].status == Active
    ensures var (redis, reply) := Run(stores.redis, Block(user));
            Complete(stores, StatusSnapshot(user, actor, Suspended), choice)
            == if reply.Deleted? then (WithStatus(stores, user, Suspended).(redis := redis), StatusChanged(user, Suspended))
               else (stores, Failure(Internal))
  {
    var (redis, reply) := Run(stores.redis, Block(user));
    var block := StatusBlock(user, Active, Suspended);
    SnapshotPerforms(stores, user, actor, Suspended, choice);
    Continues(stores, StatusSnapshot(user, actor, Suspended), stores, block, choice);
    StatusBlockPerforms(stores, user, choice);
    BlockCloses(stores.redis, user);
    if reply.Deleted? {
      Continues(stores, block, stores.(redis := redis), StatusWrite(user, Active, Suspended), choice);
      StatusWritten(stores.(redis := redis), user, Active, Suspended, choice);
    } else {
      Ends(stores, block, stores, Failure(Internal), choice);
    }
  }

  lemma StatusUnblockPerforms(stores: Stores, user: UserId, choice: Choice)
    ensures var (redis, reply) := Run(stores.redis, Unblock(user));
            Perform(stores, StatusUnblock(user, Suspended, Active), Acknowledged, choice)
            == (stores.(redis := redis), if reply.Updated? then StatusWrite(user, Suspended, Active) else Failure(Internal))
  {
  }

  /** A reactivation unblocks and then writes the status; without access state nothing changes. */
  lemma Reactivation(stores: Stores, user: UserId, actor: UserRole, choice: Choice)
    requires user in stores.rows && Outranks(actor, stores.rows[user].role) && stores.rows[user].status == Suspended
    ensures var (redis, reply) := Run(stores.redis, Unblock(user));
            Complete(stores, StatusSnapshot(user, actor, Active), choice)
            == if reply.Updated? then (WithStatus(stores, user, Active).(redis := redis), StatusChanged(user, Active))
               else (stores, Failure(Internal))
  {
    var (redis, reply) := Run(stores.redis, Unblock(user));
    var unblock := StatusUnblock(user, Suspended, Active);
    SnapshotPerforms(stores, user, actor, Active, choice);
    Continues(stores, StatusSnapshot(user, actor, Active), stores, unblock, choice);
    StatusUnblockPerforms(stores, user, choice);
    UnblockOpens(stores.redis, user);
    if reply.Updated? {
      Continues(stores, unblock, stores.(redis := redis), StatusWrite(user, Suspended, Active), choice);
      StatusWritten(stores.(redis := redis), user, Suspended, Active, choice);
    } else {
      Ends(stores, unblock, stores, Failure(Internal), choice);
    }
  }

  // ----- ChangeRole -----

  /** A role change needs the rank over the role the target has and over the one it gets,
      and then writes exactly that. */
  lemma RoleChange(stores: Stores, user: UserId, actor: UserRole, requested: UserRole, choice: Choice)
    requires requested.IsKnown()
    ensures Complete(stores, RoleSnapshot(user, actor, requested), choice)
         == if user !in stores.rows then (stores, Failure(UserNotFound))
            else
              var row := stores.rows[user];
              if row.role == RoleUnknown then (stores, Failure(Internal))
              else if !Outranks(actor, row.role) || !Outranks(actor, requested) then (stores, Failure(Forbidden))
              else (WithRole(stores, user, requested), RoleChanged(user, requested))
  {
    var start := RoleSnapshot(user, actor, requested);
    RoleSnapshotPerforms(stores, user, actor, requested, choice);
    if user !in stores.rows {
      Ends(stores, start, stores, Failure(UserNotFound), choice);
    } else if stores.rows[user].role == RoleUnknown {
      Ends(stores, start, stores, Failure(Internal), choice);
    } else if !Outranks(actor, stores.rows[user].role) || !Outranks(actor, requested) {
      Ends(stores, start, stores, Failure(Forbidden), choice);
    } else {
      Continues(stores, start, stores, RoleWrite(user, actor, stores.rows[user].role, requested), choice);
      RoleWritten(stores, user, actor, requested, choice);
    }
  }

  lemma RoleWritten(stores: Stores, user: UserId, actor: UserRole, requested: UserRole, choice: Choice)
    requires user in stores.rows && stores.rows[user].role.IsKnown() && requested.IsKnown()
    ensures Complete(stores, RoleWrite(user, actor, stores.rows[user].role, requested), choice)
         == (WithRole(stores, user, requested), RoleChanged(user, requested))
  {
    var write := RoleWrite(user, actor, stores.rows[user].role, requested);
    RoleWritePerforms(stores, user, actor, requested, choice);
    Ends(stores, write, WithRole(stores, user, requested), RoleChanged(user, requested), choice);
  }

  function WithRole(stores: Stores, user: UserId, role: UserRole): Stores
    requires user in stores.rows
  {
    var row := stores.rows[user];
    stores.(rows := stores.rows[user := Row(row.digest, row.status, role, row.version)])
  }

  lemma RoleSnapshotPerforms(stores: Stores, user: UserId, actor: UserRole, requested: UserRole, choice: Choice)
    requires requested.IsKnown()
    ensures Perform(stores, RoleSnapshot(user, actor, requested), Acknowledged, choice)
         == (stores,
             if user !in stores.rows then Failure(UserNotFound)
             else if stores.rows[user].role == RoleUnknown then Failure(Internal)
             else if !Outranks(actor, stores.rows[user].role) || !Outranks(actor, requested) then Failure(Forbidden)
             else RoleWrite(user, actor, stores.rows[user].role, requested))
  {
    RankDecides(actor, requested);
    if user in stores.rows {
      RankDecides(actor, stores.rows[user].role);
    }
  }

  lemma RoleWritePerforms(stores: Stores, user: UserId, actor: UserRole, requested: UserRole, choice: Choice)
    requires user in stores.rows && stores.rows[user].role.IsKnown() && requested.IsKnown()
    ensures Perform(stores, RoleWrite(user, actor, stores.rows[user].role, requested), Acknowledged, choice)
         == (WithRole(stores, user, requested), RoleChanged(user, requested))
  {
    RoleIsSwapped(stores.rows, user, stores.rows[user].role, requested);
  }

  // ----- ChangePassword, UpdateUser, ChangeEmail -----

  function WithDigest(rows: Rows, user: UserId, digest: nat): Rows
    requires user in rows
  {
    rows[user := Row(digest, rows[user].status, rows[user].role, rows[user].version + 1)]
  }

  /** A password change succeeds exactly for an account whose current password was verified
      and whose new one could be hashed. The new digest is then stored under the next
      version and the sessions are cleaned up; otherwise nothing changes. */
  lemma PasswordChange(stores: Stores, user: UserId, digest: nat, choice: Choice)
    ensures Complete(stores, PasswordLookup(user, digest), choice)
         == if user !in stores.rows then (stores, Failure(UserNotFound))
            else if !choice.local.verified then (stores, Failure(InvalidCredentials))
            else if !choice.local.hashed then (stores, Failure(PasswordRefused))
            else (Stores(WithDigest(stores.rows, user, digest), Run(stores.redis, DeleteAll(user)).0), PasswordChanged(user))
  {
    var start := PasswordLookup(user, digest);
    PasswordLookupPerforms(stores, user, digest, choice);
    if user !in stores.rows {
      Ends(stores, start, stores, Failure(UserNotFound), choice);
    } else if !choice.local.verified {
      Ends(stores, start, stores, Failure(InvalidCredentials), choice);
    } else if !choice.local.hashed {
      Ends(stores, start, stores, Failure(PasswordRefused), choice);
    } else {
      Continues(stores, start, stores, PasswordWrite(user, digest), choice);
      PasswordWritten(stores, user, digest, choice);
    }
  }

  lemma PasswordLookupPerforms(stores: Stores, user: UserId, digest: nat, choice: Choice)
    ensures Perform(stores, PasswordLookup(user, digest), Acknowledged, choice)
         == (stores,
             if user !in stores.rows then Failure(UserNotFound)
             else if !choice.local.verified then Failure(InvalidCredentials)
             else if !choice.local.hashed then Failure(PasswordRefused)
             else PasswordWrite(user, digest))
  {
  }

  lemma PasswordWritePerforms(stores: Stores, user: UserId, digest: nat, choice: Choice)
    requires user in stores.rows
    ensures Perform(stores, PasswordWrite(user, digest), Acknowledged, choice)
         == (stores.(rows := WithDigest(stores.rows, user, digest)), PasswordCleanup(user))
  {
    PasswordIsStored(stores.rows, user, digest);
  }

  lemma PasswordCleanupPerforms(stores: Stores, user: UserId, choice: Choice)
    ensures Perform(stores, PasswordCleanup(user), Acknowledged, choice)
         == (stores.(redis := Run(stores.redis, DeleteAll(user)).0), PasswordChanged(user))
  {
  }

  lemma PasswordWritten(stores: Stores, user: UserId, digest: nat, choice: Choice)
    requires user in stores.rows
    ensures Complete(stores, PasswordWrite(user, digest), choice)
         == (Stores(WithDigest(stores.rows, user, digest), Run(stores.redis, DeleteAll(user)).0), PasswordChanged(user))
  {
    var written := stores.(rows := WithDigest(stores.rows, user, digest));
    var cleaned := written.(redis := Run(stores.redis, DeleteAll(user)).0);
    PasswordWritePerforms(stores, user, digest, choice);
    Continues(stores, PasswordWrite(user, digest), written, PasswordCleanup(user), choice);
    PasswordCleanupPerforms(written, user, choice);
    Ends(written, PasswordCleanup(user), cleaned, PasswordChanged(user), choice);
  }

  /** A field update stores a given digest under the next version; an e-mail alone leaves
      the credentials as they are, and no field at all is refused. */
  lemma FieldsChange(stores: Stores, user: UserId, email: bool, digest: Option<nat>, choice: Choice)
    ensures Complete(stores, FieldsWrite(user, email, digest), choice)
         == if !email && digest.None? then (stores, Failure(BadRequest))
            else if user !in stores.rows then (stores, Failure(UserNotFound))
            else (stores.(rows := if digest.Some? then WithDigest(stores.rows, user, digest.value) else stores.rows),
                  FieldsWritten(user))
  {
    FieldsPerform(stores, user, email, digest, choice);
    var (after, end) := Perform(stores, FieldsWrite(user, email, digest), Acknowledged, choice);
    Ends(stores, FieldsWrite(user, email, digest), after, end, choice);
  }

  lemma FieldsPerform(stores: Stores, user: UserId, email: bool, digest: Option<nat>, choice: Choice)
    ensures Perform(stores, FieldsWrite(user, email, digest), Acknowledged, choice)
         == if !email && digest.None? then (stores, Failure(BadRequest))
            else if user !in stores.rows then (stores, Failure(UserNotFound))
            else (stores.(rows := if digest.Some? then WithDigest(stores.rows, user, digest.value) else stores.rows),
                  FieldsWritten(user))
  {
    FieldsAreStored(stores.rows, user, email, digest);
  }

  // ----- DeleteUser, Logout -----

  /** A deletion blocks the account and then removes exactly its row; when the block is
      refused nothing changes. */
  lemma Deletion(stores: Stores, user: UserId, choice: Choice)
    ensures var (redis, reply) := Run(stores.redis, Block(user));
            Complete(stores, DeleteLookup(user), choice)
            == if user !in stores.rows then (stores, Failure(UserNotFound))
               else if reply.Deleted? then (Stores(stores.rows - {user}, redis), UserDeleted(user))
               else (stores, Failure(Internal))
  {
    DeleteLookupPerforms(stores, user, choice);
    if user !in stores.rows {
      Ends(stores, DeleteLookup(user), stores, Failure(UserNotFound), choice);
    } else {
      Continues(stores, DeleteLookup(user), stores, DeleteBlock(user), choice);
      DeletionBlocks(stores, user, choice);
      BlockCloses(stores.redis, user);
    }
  }

  lemma DeletionBlocks(stores: Stores, user: UserId, choice: Choice)
    requires user in stores.rows
    ensures var (redis, reply) := Run(stores.redis, Block(user));
            Complete(stores, DeleteBlock(user), choice)
            == if reply.Deleted? then (Stores(stores.rows - {user}, redis), UserDeleted(user))
               else (stores.(redis := redis), Failure(Internal))
  {
    var (redis, reply) := Run(stores.redis, Block(user));
    DeleteBlockPerforms(stores, user, choice);
    if reply.Deleted? {
      Continues(stores, DeleteBlock(user), stores.(redis := redis), DeleteRemove(user), choice);
      DeleteRemovePerforms(stores.(redis := redis), user, choice);
      Ends(stores.(redis := redis), DeleteRemove(user), Stores(stores.rows - {user}, redis), UserDeleted(user), choice);
    } else {
      Ends(stores, DeleteBlock(user), stores.(redis := redis), Failure(Internal), choice);
    }
  }

  lemma DeleteBlockPerforms(stores: Stores, user: UserId, choice: Choice)
    ensures var (redis, reply) := Run(stores.redis, Block(user));
            Perform(stores, DeleteBlock(user), Acknowledged, choice)
            == (stores.(redis := redis), if reply.Deleted? then DeleteRemove(user) else Failure(Internal))
  {
  }

  lemma DeleteLookupPerforms(stores: Stores, user: UserId, choice: Choice)
    ensures Perform(stores, DeleteLookup(user), Acknowledged, choice)
         == (stores, if user in stores.rows then DeleteBlock(user) else Failure(UserNotFound))
  {
  }

  lemma DeleteRemovePerforms(stores: Stores, user: UserId, choice: Choice)
    ensures Perform(stores, DeleteRemove(user), Acknowledged, choice)
         == (stores.(rows := stores.rows - {user}), if user in stores.rows then UserDeleted(user) else Failure(UserNotFound))
  {
    RowIsRemoved(stores.rows, user);
  }

  /** A logout ends exactly the targets, all owned by the user; otherwise nothing changes. */
  lemma LogoutOutcome(stores: Stores, user: UserId, targets: set<SessionId>, choice: Choice)
    ensures var (after, end) := Complete(stores, LogoutDelete(user, targets), choice);
            var owned := forall id :: id in targets ==> id in stores.redis.sessions && stores.redis.sessions[id].user == user;
            && end == (if owned then LoggedOut else Failure(NotFound))
            && after.rows == stores.rows
            && after.redis.sessions == stores.redis.sessions - (if owned then targets else {})
            && (!owned ==> after == stores)
  {
    LogoutPerforms(stores, user, targets, choice);
    var (after, end) := Perform(stores, LogoutDelete(user, targets), Acknowledged, choice);
    Ends(stores, LogoutDelete(user, targets), after, end, choice);
    DeletedExactlyWhenOwned(stores.redis, user, targets);
    assert stores.redis.sessions - {} == stores.redis.sessions;
  }

  lemma LogoutPerforms(stores: Stores, user: UserId, targets: set<SessionId>, choice: Choice)
    ensures var (redis, reply) := Run(stores.redis, DeleteOwned(user, targets));
            Perform(stores, LogoutDelete(user, targets), Acknowledged, choice)
            == (stores.(redis := redis), if reply.Deleted? then LoggedOut else Failure(NotFound))
  {
  }

  /** Logging out everywhere else keeps the current session, which must be the user's. */
  lemma LogoutOthersOutcome(stores: Stores, user: UserId, current: SessionId, choice: Choice)
    ensures var (after, end) := Complete(stores, LogoutOthers(user, current), choice);
            var owned := current in stores.redis.sessions && stores.redis.sessions[current].user == user;
            && end == (if owned then LoggedOut else Failure(NotFound))
            && after.rows == stores.rows
            && (owned ==> RemovesExactly(stores.redis, after.redis, user, Some(current)))
            && (!owned ==> after == stores)
  {
    LogoutOthersPerform(stores, user, current, choice);
    var (after, end) := Perform(stores, LogoutOthers(user, current), Acknowledged, choice);
    Ends(stores, LogoutOthers(user, current), after, end, choice);
    DeleteOthersKeepsExactly(stores.redis, user, current);
  }

  lemma LogoutOthersPerform(stores: Stores, user: UserId, current: SessionId, choice: Choice)
    ensures var (redis, reply) := Run(stores.redis, DeleteOthers(user, current));
            Perform(stores, LogoutOthers(user, current), Acknowledged, choice)
            == (stores.(redis := redis), if reply.Deleted? then LoggedOut else Failure(NotFound))
  {
  }

  // ----- a compare-and-set that misses -----

  /** A status write that does not find the expected status goes on to ask why. */
  lemma StatusWriteMisses(stores: Stores, user: UserId, current: UserStatus, requested: UserStatus, choice: Choice)
    requires current.IsKnown() && requested.IsKnown() && current != requested
    requires user !in stores.rows || stores.rows[user].status != current
    ensures Perform(stores, StatusWrite(user, current, requested), Acknowledged, choice)
         == (stores, StatusMiss(user, current, requested))
  {
    StatusIsSwapped(stores.rows, user, current, requested);
  }

  /** The reason is success when somebody else has stored the requested status. */
  lemma StatusMissPerforms(stores: Stores, user: UserId, current: UserStatus, requested: UserStatus, choice: Choice)
    ensures Perform(stores, StatusMiss(user, current, requested), Acknowledged, choice)
         == (stores,
             if user !in stores.rows then Failure(UserNotFound)
             else if stores.rows[user].status == StatusUnknown then Failure(Internal)
             else if stores.rows[user].status == requested then StatusChanged(user, requested)
             else Failure(InvalidTransition))
  {
  }

  lemma RoleWriteMisses(stores: Stores, user: UserId, actor: UserRole, expected: UserRole, requested: UserRole, choice: Choice)
    requires expected.IsKnown() && requested.IsKnown()
    requires user !in stores.rows || stores.rows[user].role != expected
    ensures Perform(stores, RoleWrite(user, actor, expected, requested), Acknowledged, choice)
         == (stores, RoleMiss(user, actor, expected, requested))
  {
    RoleIsSwapped(stores.rows, user, expected, requested);
  }

  lemma RoleMissPerforms(stores: Stores, user: UserId, actor: UserRole, expected: UserRole, requested: UserRole, choice: Choice)
    ensures Perform(stores, RoleMiss(user, actor, expected, requested), Acknowledged, choice)
         == (stores,
             if user !in stores.rows then Failure(UserNotFound)
             else if stores.rows[user].role == RoleUnknown then Failure(Internal)
             else if stores.rows[user].role == requested then RoleChanged(user, requested)
             else if stores.rows[user].role == expected then Failure(Internal)
             else Failure(ConcurrentRoleChange))
  {
  }

  // ----- faults -----

  /** A command that reports an error never ends in success, but for the cleanup after a
      password write, which never ends in failure. */
  lemma ErrorsNeverSucceed(stores: Stores, call: Call, fault: Fault, choice: Choice)
    requires !Next(call).Finished?
    ensures !fault.Acknowledged? ==>
              Perform(stores, call, fault, choice).1
              == if call.PasswordCleanup? then PasswordChanged(call.user) else Failure(Internal)
    ensures call.PasswordCleanup? ==> Perform(stores, call, fault, choice).1 == PasswordChanged(call.user)
  {
  }
}
