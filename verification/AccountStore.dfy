/** The PostgreSQL users table. Every statement is one atomic function from rows
    to rows and answer; `UserRepository` is the mutable table. */
module AccountStore {
  import opened Domain

  const INITIAL_CREDENTIAL_VERSION: nat := 1

  /** The columns that the account protocol reads or writes. */
  datatype Row = Row(digest: nat, status: UserStatus, role: UserRole, version: nat) {
    /** The password digest and the credential version are written by one statement. */
    function WithDigest(digest: nat): Row {
      this.(digest := digest, version := version + 1)
    }
  }

  type Rows = map<UserId, Row>

  /** `Read` stands for every single-row select: a caller uses the columns its select lists. */
  datatype Query =
    | Read(user: UserId)
    | WritePassword(user: UserId, digest: nat)
    | WriteFields(user: UserId, email: bool, newDigest: Option<nat>)
    | CasStatus(user: UserId, expected: UserStatus, requested: UserStatus)
    | CasRole(user: UserId, expectedRole: UserRole, requestedRole: UserRole)
    | DeleteRow(user: UserId)

  datatype Answer = Selected(row: Row) | NoRow | Invalid

  function RunQuery(rows: Rows, query: Query): (Rows, Answer) {
    match query
    case Read(user) => (rows, ReadRow(rows, user))
    case WritePassword(user, digest) => WriteDigest(rows, user, digest)
    case WriteFields(user, email, digest) =>
      if !email && digest.None? then (rows, Invalid)
      else if user !in rows then (rows, NoRow)
      else StoreRow(rows, user, if digest.Some? then rows[user].WithDigest(digest.value) else rows[user])
    case CasStatus(user, expected, requested) =>
      if !expected.IsKnown() || !requested.IsKnown() || expected == requested then (rows, Invalid)
      else if user in rows && rows[user].status == expected then
        StoreRow(rows, user, rows[user].(status := requested))
      else (rows, NoRow)
    case CasRole(user, expected, requested) =>
      if !expected.IsKnown() || !requested.IsKnown() then (rows, Invalid)
      else if user in rows && rows[user].role == expected then StoreRow(rows, user, rows[user].(role := requested))
      else (rows, NoRow)
    case DeleteRow(user) => RemoveRow(rows, user)
  }

  function ReadRow(rows: Rows, user: UserId): Answer {
    if user in rows then Selected(rows[user]) else NoRow
  }

  function WriteDigest(rows: Rows, user: UserId, digest: nat): (Rows, Answer) {
    if user in rows then StoreRow(rows, user, rows[user].WithDigest(digest)) else (rows, NoRow)
  }

  function RemoveRow(rows: Rows, user: UserId): (Rows, Answer) {
    if user in rows then (rows - {user}, Selected(rows[user])) else (rows, NoRow)
  }

  function StoreRow(rows: Rows, user: UserId, row: Row): (Rows, Answer) {
    (rows[user := row], Selected(row))
  }

  // ----- what the statements store -----

  /** A password write stores the digest under the next version, and nothing else. */
  lemma PasswordIsStored(rows: Rows, user: UserId, digest: nat)
    ensures var (after, answer) := RunQuery(rows, WritePassword(user, digest));
            if user in rows then
              && after == rows[user := Row(digest, rows[user].status, rows[user].role, rows[user].version + 1)]
              && answer == Selected(after[user])
            else
              after == rows && answer == NoRow
  {
  }

  /** A new digest is stored as by a password write; an e-mail alone touches no column here. */
  lemma FieldsAreStored(rows: Rows, user: UserId, email: bool, digest: Option<nat>)
    ensures var (after, answer) := RunQuery(rows, WriteFields(user, email, digest));
            && (answer.Invalid? <==> !email && digest.None?)
            && (answer.Selected? <==> (email || digest.Some?) && user in rows)
            && after == if user in rows && digest.Some?
                        then rows[user := Row(digest.value, rows[user].status, rows[user].role, rows[user].version + 1)]
                        else rows
  {
    assert user in rows ==> rows[user := rows[user]] == rows;
  }

  /** A compare-and-set writes exactly its column, exactly from the expected value. */
  lemma StatusIsSwapped(rows: Rows, user: UserId, expected: UserStatus, requested: UserStatus)
    requires expected.IsKnown() && requested.IsKnown() && expected != requested
    ensures var (after, answer) := RunQuery(rows, CasStatus(user, expected, requested));
            if user in rows && rows[user].status == expected then
              && after == rows[user := Row(rows[user].digest, requested, rows[user].role, rows[user].version)]
              && answer == Selected(after[user])
            else
              after == rows && answer == NoRow
  {
  }

  lemma RoleIsSwapped(rows: Rows, user: UserId, expected: UserRole, requested: UserRole)
    requires expected.IsKnown() && requested.IsKnown()
    ensures var (after, answer) := RunQuery(rows, CasRole(user, expected, requested));
            if user in rows && rows[user].role == expected then
              && after == rows[user := Row(rows[user].digest, rows[user].status, requested, rows[user].version)]
              && answer == Selected(after[user])
            else
              after == rows && answer == NoRow
  {
  }

  /** A deletion removes exactly the row, and says whether there was one. */
  lemma RowIsRemoved(rows: Rows, user: UserId)
    ensures var (after, answer) := RunQuery(rows, DeleteRow(user));
            && after == rows - {user}
            && answer == if user in rows then Selected(rows[user]) else NoRow
  {
    assert user !in rows ==> rows - {user} == rows;
  }

  datatype UpdateOutcome<T> = Applied(current: T) | AlreadyApplied(current: T) | Conflict(current: T) | RowMissing | Broken

  /** What a missed compare-and-set of the status means, from a later select of the row. */
  function ClassifyStatusMiss(answer: Answer, requested: UserStatus): UpdateOutcome<UserStatus> {
    match answer
    case Selected(row) =>
      if !row.status.IsKnown() then Broken
      else if row.status == requested then AlreadyApplied(row.status)
      else Conflict(row.status)
    case NoRow => RowMissing
    case Invalid => Broken
  }

  function ClassifyRoleMiss(answer: Answer, expected: UserRole, requested: UserRole): UpdateOutcome<UserRole> {
    match answer
    case Selected(row) =>
      if !row.role.IsKnown() then Broken
      else if row.role == requested then AlreadyApplied(row.role)
      else if row.role == expected then Broken
      else Conflict(row.role)
    case NoRow => RowMissing
    case Invalid => Broken
  }

  function StatusUpdate(rows: Rows, user: UserId, expected: UserStatus, requested: UserStatus)
    : (Rows, UpdateOutcome<UserStatus>)
  {
    var (after, answer) := RunQuery(rows, CasStatus(user, expected, requested));
    (after, match answer
            case Selected(row) => Applied(row.status)
            case Invalid => Broken
            case NoRow => ClassifyStatusMiss(ReadRow(after, user), requested))
  }

  function RoleUpdate(rows: Rows, user: UserId, expected: UserRole, requested: UserRole)
    : (Rows, UpdateOutcome<UserRole>)
  {
    var (after, answer) := RunQuery(rows, CasRole(user, expected, requested));
    (after, match answer
            case Selected(row) => Applied(row.role)
            case Invalid => Broken
            case NoRow => ClassifyRoleMiss(ReadRow(after, user), expected, requested))
  }

  /** The mutable table, with one method a statement. */
  class UserRepository {
    var rows: Rows

    constructor ()
      ensures rows == map[]
    {
      rows := map[];
    }

    method Create(user: UserId, row: Row) returns (ok: bool)
      modifies this
      ensures ok <==> row.version > 0 && user !in old(rows)
      ensures rows == if ok then old(rows)[user := row] else old(rows)
    {
      ok := row.version > 0 && user !in rows;
      if ok {
        rows := rows[user := row];
      }
    }

    method Find(user: UserId) returns (answer: Answer)
      ensures answer == ReadRow(rows, user)
    {
      answer := if user in rows then Selected(rows[user]) else NoRow;
    }

    method UpdatePassword(user: UserId, digest: nat) returns (answer: Answer)
      modifies this
      ensures (rows, answer) == WriteDigest(old(rows), user, digest)
    {
      answer := NoRow;
      if user in rows {
        var row := rows[user];
        rows := rows[user := row.(digest := digest, version := row.version + 1)];
        answer := Selected(rows[user]);
      }
    }

    method UpdateUserFields(user: UserId, email: bool, digest: Option<nat>) returns (answer: Answer)
      modifies this
      ensures (rows, answer) == RunQuery(old(rows), WriteFields(user, email, digest))
    {
      if !email && digest.None? {
        return Invalid;
      }
      answer := NoRow;
      if user in rows {
        if digest.Some? {
          rows := rows[user := rows[user].(digest := digest.value, version := rows[user].version + 1)];
        }
        assert rows[user := rows[user]] == rows;
        answer := Selected(rows[user]);
      }
    }

    method CompareAndSetStatus(user: UserId, expected: UserStatus, requested: UserStatus) returns (answer: Answer)
      modifies this
      ensures (rows, answer) == RunQuery(old(rows), CasStatus(user, expected, requested))
    {
      if !expected.IsKnown() || !requested.IsKnown() || expected == requested {
        return Invalid;
      }
      answer := NoRow;
      if user in rows && rows[user].status == expected {
        rows := rows[user := rows[user].(status := requested)];
        answer := Selected(rows[user]);
      }
    }

    method CompareAndSetRole(user: UserId, expected: UserRole, requested: UserRole) returns (answer: Answer)
      modifies this
      ensures (rows, answer) == RunQuery(old(rows), CasRole(user, expected, requested))
    {
      if !expected.IsKnown() || !requested.IsKnown() {
        return Invalid;
      }
      answer := NoRow;
      if user in rows && rows[user].role == expected {
        rows := rows[user := rows[user].(role := requested)];
        answer := Selected(rows[user]);
      }
    }

    /** The update and, on a miss, the select that explains it. */
    method UpdateStatus(user: UserId, expected: UserStatus, requested: UserStatus)
      returns (outcome: UpdateOutcome<UserStatus>)
      modifies this
      ensures (rows, outcome) == StatusUpdate(old(rows), user, expected, requested)
      ensures outcome.Applied? <==>
        expected.IsKnown() && requested.IsKnown() && expected != requested
        && user in old(rows) && old(rows)[user].status == expected
      ensures outcome.Applied? || outcome.AlreadyApplied? ==>
        user in rows && rows[user].status == requested == outcome.current
      ensures outcome.Conflict? ==> user in rows && outcome.current == rows[user].status != requested
      ensures outcome.RowMissing? ==> user !in rows
    {
      var answer := CompareAndSetStatus(user, expected, requested);
      match answer
      case Selected(row) =>
        outcome := Applied(row.status);
      case Invalid =>
        outcome := Broken;
      case NoRow =>
        var found := Find(user);
        outcome := ClassifyStatusMiss(found, requested);
    }

    method UpdateRole(user: UserId, expected: UserRole, requested: UserRole)
      returns (outcome: UpdateOutcome<UserRole>)
      modifies this
      ensures (rows, outcome) == RoleUpdate(old(rows), user, expected, requested)
      ensures outcome.Applied? <==>
        expected.IsKnown() && requested.IsKnown() && user in old(rows) && old(rows)[user].role == expected
      ensures outcome.Applied? || outcome.AlreadyApplied? ==>
        user in rows && rows[user].role == requested == outcome.current
      ensures outcome.Conflict? ==>
        user in rows && outcome.current == rows[user].role && rows[user].role !in {expected, requested}
      ensures outcome.RowMissing? ==> user !in rows
    {
      var answer := CompareAndSetRole(user, expected, requested);
      match answer
      case Selected(row) =>
        outcome := Applied(row.role);
      case Invalid =>
        outcome := Broken;
      case NoRow =>
        var found := Find(user);
        outcome := ClassifyRoleMiss(found, expected, requested);
    }

    method Delete(user: UserId) returns (answer: Answer)
      modifies this
      ensures (rows, answer) == RemoveRow(old(rows), user)
    {
      answer := NoRow;
      if user in rows {
        answer := Selected(rows[user]);
        rows := rows - {user};
      }
    }
  }
}
