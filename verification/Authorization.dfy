/** Request-time authorization against the authoritative rows. */
module Authorization {
  import opened Domain
  import opened AccountStore
  import opened Permissions

  datatype Principal = Principal(user: UserId, session: SessionId, version: nat, role: UserRole, permissions: PermissionSet) {
    predicate IsValid() {
      version > 0 && role.IsKnown()
    }
  }

  datatype Refusal = SecurityStateChanged | PrincipalInactive | PrincipalSuspended | PermissionDenied | StateInvalid

  datatype Decision = Granted(principal: Principal) | Refused(reason: Refusal)

  function ActiveStatusRefusal(status: UserStatus): Option<Refusal> {
    match status
    case Inactive => Some(PrincipalInactive)
    case Suspended => Some(PrincipalSuspended)
    case Active => None
    case StatusUnknown => Some(StateInvalid)
  }

  /** Checks identity, version and status, and keeps the principal's signed role and permissions. */
  function AuthorizeFreshIdentity(rows: Rows, principal: Principal): Decision {
    if !principal.IsValid() || principal.user !in rows then Refused(SecurityStateChanged)
    else
      var row := rows[principal.user];
      if row.version == 0 || !row.status.IsKnown() then Refused(StateInvalid)
      else if row.version != principal.version then Refused(SecurityStateChanged)
      else if ActiveStatusRefusal(row.status).Some? then Refused(ActiveStatusRefusal(row.status).value)
      else Granted(principal)
  }

  /** Also replaces role and permissions by the stored ones and demands `required` of those
      (an empty name demands nothing). */
  function AuthorizeFresh(rows: Rows, grants: map<UserRole, seq<string>>, principal: Principal, required: string)
    : Decision
  {
    if !principal.IsValid() || principal.user !in rows then Refused(SecurityStateChanged)
    else
      var row := rows[principal.user];
      var permissions := NormalForm(if row.role in grants then grants[row.role] else []);
      if row.version == 0 || !row.status.IsKnown() || !row.role.IsKnown() || permissions.None? then
        Refused(StateInvalid)
      else if row.version != principal.version then Refused(SecurityStateChanged)
      else if ActiveStatusRefusal(row.status).Some? then Refused(ActiveStatusRefusal(row.status).value)
      else if required != "" && !IsPermission(required) then Refused(StateInvalid)
      else if required != "" && !Holds(permissions.value, required) then Refused(PermissionDenied)
      else Granted(principal.(role := row.role, permissions := permissions.value))
  }

  /** A grant means a live, active account at the very version of the token, and hands
      out the stored role and permissions with the required one among them. */
  lemma GrantedMeans(rows: Rows, grants: map<UserRole, seq<string>>, principal: Principal, required: string)
    requires AuthorizeFresh(rows, grants, principal, required).Granted?
    ensures AuthorizeFreshIdentity(rows, principal) == Granted(principal)
    ensures principal.user in rows && rows[principal.user].status == Active
    ensures rows[principal.user].version == principal.version > 0
    ensures var granted := AuthorizeFresh(rows, grants, principal, required).principal;
            && granted.role == rows[principal.user].role
            && Normal(granted.permissions)
            && (forall p :: p in granted.permissions <==> granted.role in grants && p in grants[granted.role])
            && (required != "" ==> required in granted.permissions || FULL_ACCESS in granted.permissions)
  {
  }

  /** Whether the stored role's grants, all of them known permissions, include the required one. */
  predicate Entitled(role: UserRole, grants: map<UserRole, seq<string>>, required: string) {
    var granted := if role in grants then grants[role] else [];
    && (forall p :: p in granted ==> IsPermission(p))
    && (required != "" ==> IsPermission(required) && (required in granted || FULL_ACCESS in granted))
  }

  /** The token is well formed and its account live, active and unchanged since it was issued. */
  predicate Current(rows: Rows, principal: Principal) {
    && principal.version > 0 && principal.role != RoleUnknown
    && principal.user in rows
    && rows[principal.user].version == principal.version && rows[principal.user].status == Active
  }

  /** Access is granted exactly to a current token, and with the permission check exactly
      when the stored role is entitled; nobody entitled is refused. */
  lemma GrantedExactlyWhen(rows: Rows, grants: map<UserRole, seq<string>>, principal: Principal, required: string)
    ensures AuthorizeFreshIdentity(rows, principal).Granted? <==> Current(rows, principal)
    ensures AuthorizeFresh(rows, grants, principal, required).Granted?
       <==> Current(rows, principal) && rows[principal.user].role != RoleUnknown
            && Entitled(rows[principal.user].role, grants, required)
  {
  }

  /** Refusals say why: a changed or missing account, an inactive or suspended one, or the permission. */
  lemma RefusedBecause(rows: Rows, grants: map<UserRole, seq<string>>, principal: Principal, required: string)
    requires principal.version > 0 && principal.role != RoleUnknown
    requires principal.user in rows ==>
               rows[principal.user].version > 0 && rows[principal.user].status.IsKnown() && rows[principal.user].role.IsKnown()
    requires principal.user in rows ==> Entitled(rows[principal.user].role, grants, "")
    ensures var stale := principal.user !in rows || rows[principal.user].version != principal.version;
            && (stale ==>
                  && AuthorizeFreshIdentity(rows, principal) == Refused(SecurityStateChanged)
                  && AuthorizeFresh(rows, grants, principal, required) == Refused(SecurityStateChanged))
            && (!stale && rows[principal.user].status == Inactive ==>
                  && AuthorizeFreshIdentity(rows, principal) == Refused(PrincipalInactive)
                  && AuthorizeFresh(rows, grants, principal, required) == Refused(PrincipalInactive))
            && (!stale && rows[principal.user].status == Suspended ==>
                  && AuthorizeFreshIdentity(rows, principal) == Refused(PrincipalSuspended)
                  && AuthorizeFresh(rows, grants, principal, required) == Refused(PrincipalSuspended))
            && (!stale && rows[principal.user].status == Active && IsPermission(required)
                && !Entitled(rows[principal.user].role, grants, required) ==>
                  AuthorizeFresh(rows, grants, principal, required) == Refused(PermissionDenied))
  {
  }

  /** The role and the permissions signed into the token decide nothing. */
  lemma SignedClaimsDecideNothing(
    rows: Rows, grants: map<UserRole, seq<string>>, principal: Principal, role: UserRole, permissions: PermissionSet,
    required: string
  )
    requires principal.role.IsKnown() && role.IsKnown()
    ensures AuthorizeFresh(rows, grants, principal.(role := role, permissions := permissions), required)
         == AuthorizeFresh(rows, grants, principal, required)
  {
  }
}
