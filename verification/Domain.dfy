/** Value objects shared by every other module: the account-status graph, the
    role hierarchy, and the outcome of a remote command. */
module Domain {

  datatype Option<+T> = None | Some(value: T)

  type UserId = nat
  type SessionId = nat
  type Jti = nat

  datatype UserStatus = StatusUnknown | Inactive | Active | Suspended {
    predicate IsKnown() {
      !StatusUnknown?
    }

    /** Re-applying a known status is accepted, so that an interrupted workflow can be retried. */
    predicate CanTransitionTo(next: UserStatus) {
      && IsKnown()
      && next.IsKnown()
      && (this == next
          || match this
             case Inactive => next == Active
             case Active => next == Suspended
             case Suspended => next == Active
             case StatusUnknown => false)
    }

    function Name(): string {
      match this
      case Inactive => "inactive"
      case Active => "active"
      case Suspended => "suspended"
      case StatusUnknown => "unknown"
    }
  }

  datatype UserRole = RoleUnknown | Client | Operator | Admin {
    predicate IsKnown() {
      !RoleUnknown?
    }

    predicate CanModifyTargetRole(target: UserRole) {
      match this
      case Admin => true
      case Operator => target == Client
      case _ => false
    }

    predicate CanAssignRole(requested: UserRole) {
      requested.IsKnown() && CanModifyTargetRole(requested)
    }

    function Name(): string {
      match this
      case Client => "client"
      case Operator => "operator"
      case Admin => "admin"
      case RoleUnknown => "unknown"
    }
  }

  function ParseUserStatus(s: string): Option<UserStatus> {
    if s == "inactive" then Some(Inactive)
    else if s == "active" then Some(Active)
    else if s == "suspended" then Some(Suspended)
    else None
  }

  function ParseUserRole(s: string): Option<UserRole> {
    if s == "client" then Some(Client)
    else if s == "operator" then Some(Operator)
    else if s == "admin" then Some(Admin)
    else None
  }

  lemma ParseRoleNames(name: string, role: UserRole)
    ensures ParseUserRole(name) == Some(role) <==> role.IsKnown() && name == role.Name()
  {
    match role
    case Client => assert "client"[0] != "operator"[0];
    case Operator => assert "operator"[0] != "client"[0] && "operator"[0] != "admin"[0];
    case Admin => assert "admin"[0] != "client"[0];
    case RoleUnknown =>
  }

  lemma ParseStatusNames(name: string, status: UserStatus)
    ensures ParseUserStatus(name) == Some(status) <==> status.IsKnown() && name == status.Name()
  {
    match status
    case Inactive =>
    case Active => assert "active"[0] != "inactive"[0];
    case Suspended => assert "suspended"[0] != "inactive"[0] && "suspended"[0] != "active"[0];
    case StatusUnknown =>
  }

  function VisibleRoles(actor: UserRole): seq<UserRole> {
    match actor
    case Admin => [Admin, Operator, Client]
    case Operator => [Client]
    case _ => []
  }

  /** An administrator outranks everybody, an operator clients, a client nobody. */
  predicate Outranks(actor: UserRole, target: UserRole) {
    actor == Admin || (actor == Operator && target == Client)
  }

  /** Rank decides alike whose role may be changed, to what, and who is seen in a listing. */
  lemma RankDecides(actor: UserRole, role: UserRole)
    ensures actor.CanModifyTargetRole(role) <==> Outranks(actor, role)
    ensures actor.CanAssignRole(role) <==> Outranks(actor, role) && role != RoleUnknown
    ensures role in VisibleRoles(actor) <==> Outranks(actor, role) && role != RoleUnknown
  {
  }

  /** Accounts are activated once, then suspended and reactivated; a known status may be repeated. */
  lemma StatusGraph(current: UserStatus, next: UserStatus)
    ensures current.CanTransitionTo(next) <==>
      || (current == next && current in {Inactive, Active, Suspended})
      || (current, next) in {(Inactive, Active), (Active, Suspended), (Suspended, Active)}
  {
  }

  /** What a caller of a remote store can experience: the command took effect and
      said so, it never ran, or it took effect and the answer was lost. */
  datatype Fault = Acknowledged | Lost | Unacknowledged
}
