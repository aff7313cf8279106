/** The user listing: from raw query strings through the actor's visibility to the
    numbered placeholders of one SQL query and the rows it selects. */
module Listing {
  import opened Domain
  import Decimal
  import opened Pagination

  datatype User = User(id: nat, email: string, role: UserRole, status: UserStatus, createdAt: int)

  datatype Query = Query(roles: seq<string>, statuses: seq<string>, search: string)

  datatype Filter = Filter(roles: seq<UserRole>, statuses: seq<UserStatus>, search: string, matchNone: bool)

  datatype Criteria = Criteria(roles: seq<UserRole>, statuses: seq<UserStatus>, search: string)

  /** `email ILIKE pattern`; its wildcards are left open. */
  type Like = (string, string) -> bool

  // ----- what a listing means -----

  predicate NamesRole(names: seq<string>, role: UserRole) {
    role.IsKnown() && role.Name() in names
  }

  predicate NamesStatus(names: seq<string>, status: UserStatus) {
    status.IsKnown() && status.Name() in names
  }

  predicate Pattern(like: Like, search: string, email: string) {
    search == "" || like(email, "%" + search + "%")
  }

  predicate Wanted(actor: UserRole, query: Query, like: Like, user: User) {
    && user.role in VisibleRoles(actor)
    && (query.roles != [] ==> NamesRole(query.roles, user.role))
    && (query.statuses != [] ==> NamesStatus(query.statuses, user.status))
    && Pattern(like, query.search, user.email)
  }

  // ----- the request filter -----

  ghost predicate Parsed(query: Query, filter: Filter) {
    && (forall role :: role in filter.roles <==> NamesRole(query.roles, role))
    && (forall status :: status in filter.statuses <==> NamesStatus(query.statuses, status))
    && (filter.matchNone <==>
          (query.roles != [] && filter.roles == []) || (query.statuses != [] && filter.statuses == []))
    && filter.search == query.search
  }

  /** Unknown names are dropped; a supplied filter that names nothing known matches nobody. */
  method ToInput(query: Query) returns (filter: Filter)
    ensures Parsed(query, filter)
  {
    var roles: seq<UserRole> := [];
    for i := 0 to |query.roles|
      invariant forall role :: role in roles <==> NamesRole(query.roles[..i], role)
    {
      var parsed := ParseUserRole(query.roles[i]);
      forall role ensures parsed == Some(role) <==> role.IsKnown() && query.roles[i] == role.Name() {
        ParseRoleNames(query.roles[i], role);
      }
      assert query.roles[..i + 1] == query.roles[..i] + [query.roles[i]];
      if parsed.Some? {
        roles := roles + [parsed.value];
      }
    }
    assert query.roles[..|query.roles|] == query.roles;
    var matchNone := |query.roles| != 0 && |roles| == 0;
    var statuses: seq<UserStatus> := [];
    for i := 0 to |query.statuses|
      invariant forall status :: status in statuses <==> NamesStatus(query.statuses[..i], status)
    {
      var parsed := ParseUserStatus(query.statuses[i]);
      forall status ensures parsed == Some(status) <==> status.IsKnown() && query.statuses[i] == status.Name() {
        ParseStatusNames(query.statuses[i], status);
      }
      assert query.statuses[..i + 1] == query.statuses[..i] + [query.statuses[i]];
      if parsed.Some? {
        statuses := statuses + [parsed.value];
      }
    }
    assert query.statuses[..|query.statuses|] == query.statuses;
    if |query.statuses| != 0 && |statuses| == 0 {
      matchNone := true;
    }
    filter := Filter(roles, statuses, query.search, matchNone);
  }

  // ----- intersection with the visible roles -----

  ghost predicate NoneVisible(actor: UserRole, filter: Filter) {
    forall role :: role in VisibleRoles(actor) ==> filter.roles != [] && role !in filter.roles
  }

  ghost predicate Narrowed(actor: UserRole, filter: Filter, criteria: Criteria) {
    && (forall role :: role in criteria.roles <==>
          role in VisibleRoles(actor) && (filter.roles != [] ==> role in filter.roles))
    && criteria.statuses == filter.statuses
    && criteria.search == filter.search
  }

  /** `None` is the empty answer that never reaches the reader. */
  method EffectiveCriteria(actor: UserRole, filter: Filter) returns (criteria: Option<Criteria>)
    ensures criteria.None? <==> filter.matchNone || NoneVisible(actor, filter)
    ensures criteria.Some? ==> criteria.value.roles != [] && Narrowed(actor, filter, criteria.value)
  {
    var allowedRoles := VisibleRoles(actor);
    if |allowedRoles| == 0 {
      return None;
    }
    assert allowedRoles[0] in allowedRoles;
    if filter.matchNone {
      return None;
    }
    if |filter.roles| == 0 {
      return Some(Criteria(allowedRoles, filter.statuses, filter.search));
    }
    var allowedMap: map<UserRole, bool> := map[];
    for i := 0 to |allowedRoles|
      invariant forall role :: role in allowedMap <==> role in allowedRoles[..i]
    {
      assert allowedRoles[..i + 1] == allowedRoles[..i] + [allowedRoles[i]];
      allowedMap := allowedMap[allowedRoles[i] := true];
    }
    assert allowedRoles[..|allowedRoles|] == allowedRoles;
    var effectiveRoles: seq<UserRole> := [];
    for i := 0 to |filter.roles|
      invariant forall role :: role in effectiveRoles <==> role in allowedRoles && role in filter.roles[..i]
    {
      assert filter.roles[..i + 1] == filter.roles[..i] + [filter.roles[i]];
      if filter.roles[i] in allowedMap {
        effectiveRoles := effectiveRoles + [filter.roles[i]];
      }
    }
    assert filter.roles[..|filter.roles|] == filter.roles;
    if |effectiveRoles| == 0 {
      return None;
    }
    assert effectiveRoles[0] in effectiveRoles;
    criteria := Some(Criteria(effectiveRoles, filter.statuses, filter.search));
  }

  // ----- the SQL query -----

  datatype Column = RoleAny | StatusAny | EmailLike

  /** One conjunct: a column compared with the argument of a numbered placeholder. */
  datatype Clause = Clause(column: Column, placeholder: nat)

  datatype Argument = Codes(codes: seq<int>) | Text(text: string) | Number(number: int)

  function RoleCode(role: UserRole): int {
    match role
    case RoleUnknown => 0
    case Client => 1
    case Operator => 2
    case Admin => 3
  }

  function StatusCode(status: UserStatus): int {
    match status
    case StatusUnknown => 0
    case Inactive => 1
    case Active => 2
    case Suspended => 3
  }

  function RoleCodes(roles: seq<UserRole>): (codes: seq<int>)
    ensures forall role :: RoleCode(role) in codes <==> role in roles
  {
    if roles == [] then [] else [RoleCode(roles[0])] + RoleCodes(roles[1..])
  }

  function StatusCodes(statuses: seq<UserStatus>): (codes: seq<int>)
    ensures forall status :: StatusCode(status) in codes <==> status in statuses
  {
    if statuses == [] then [] else [StatusCode(statuses[0])] + StatusCodes(statuses[1..])
  }

  /** Placeholders count from one. */
  predicate Holds(clause: Clause, args: seq<Argument>, like: Like, user: User) {
    && 1 <= clause.placeholder <= |args|
    && var arg := args[clause.placeholder - 1];
       match clause.column
       case RoleAny => arg.Codes? && RoleCode(user.role) in arg.codes
       case StatusAny => arg.Codes? && StatusCode(user.status) in arg.codes
       case EmailLike => arg.Text? && like(user.email, arg.text)
  }

  predicate AllHold(clauses: seq<Clause>, args: seq<Argument>, like: Like, user: User) {
    forall i :: 0 <= i < |clauses| ==> Holds(clauses[i], args, like, user)
  }

  predicate Matches(criteria: Criteria, like: Like, user: User) {
    && (criteria.roles != [] ==> user.role in criteria.roles)
    && (criteria.statuses != [] ==> user.status in criteria.statuses)
    && Pattern(like, criteria.search, user.email)
  }

  predicate PlacedWithin(clauses: seq<Clause>, args: seq<Argument>) {
    forall i :: 0 <= i < |clauses| ==> 1 <= clauses[i].placeholder <= |args|
  }

  lemma AddClause(clauses: seq<Clause>, args: seq<Argument>, column: Column, arg: Argument, like: Like)
    requires PlacedWithin(clauses, args)
    ensures var clause := Clause(column, |args| + 1);
            && PlacedWithin(clauses + [clause], args + [arg])
            && forall user :: AllHold(clauses + [clause], args + [arg], like, user)
                 <==> AllHold(clauses, args, like, user) && Holds(clause, args + [arg], like, user)
  {
    var clause := Clause(column, |args| + 1);
    var more := clauses + [clause];
    forall user
      ensures AllHold(more, args + [arg], like, user)
         <==> AllHold(clauses, args, like, user) && Holds(clause, args + [arg], like, user)
    {
      assert forall i :: 0 <= i < |clauses| ==>
        more[i] == clauses[i] && (Holds(more[i], args + [arg], like, user) <==> Holds(clauses[i], args, like, user));
      assert more[|clauses|] == clause;
    }
  }

  /** Each condition takes the next placeholder, and its argument lands at that number:
      together they select exactly the users that match, an absent criterion
      restricting nobody. */
  method BuildWhere(criteria: Criteria, ghost like: Like)
    returns (clauses: seq<Clause>, args: seq<Argument>, argIndex: nat)
    ensures forall user :: AllHold(clauses, args, like, user) <==> Matches(criteria, like, user)
    ensures argIndex == |args| + 1 && PlacedWithin(clauses, args)
  {
    clauses, args, argIndex := [], [], 1;
    if |criteria.roles| > 0 {
      AddClause(clauses, args, RoleAny, Codes(RoleCodes(criteria.roles)), like);
      clauses := clauses + [Clause(RoleAny, argIndex)];
      args := args + [Codes(RoleCodes(criteria.roles))];
      argIndex := argIndex + 1;
    }
    if |criteria.statuses| > 0 {
      AddClause(clauses, args, StatusAny, Codes(StatusCodes(criteria.statuses)), like);
      clauses := clauses + [Clause(StatusAny, argIndex)];
      args := args + [Codes(StatusCodes(criteria.statuses))];
      argIndex := argIndex + 1;
    }
    if criteria.search != "" {
      AddClause(clauses, args, EmailLike, Text("%" + criteria.search + "%"), like);
      clauses := clauses + [Clause(EmailLike, argIndex)];
      args := args + [Text("%" + criteria.search + "%")];
      argIndex := argIndex + 1;
    }
  }

  // ----- rows: filtered, ordered, cut -----

  function Where(rows: seq<User>, keep: User -> bool): (kept: seq<User>)
    ensures forall user :: user in kept <==> user in rows && keep(user)
    ensures |kept| <= |rows|
  {
    if rows == [] then []
    else (if keep(rows[0]) then [rows[0]] else []) + Where(rows[1..], keep)
  }

  lemma {:induction false} SameWhere(rows: seq<User>, p: User -> bool, q: User -> bool)
    requires forall user :: p(user) <==> q(user)
    ensures Where(rows, p) == Where(rows, q)
  {
    if rows != [] {
      SameWhere(rows[1..], p, q);
    }
  }

  predicate DistinctIds(rows: seq<User>) {
    forall i, j :: 0 <= i < j < |rows| ==> rows[i].id != rows[j].id
  }

  lemma {:induction false} WhereDistinct(rows: seq<User>, keep: User -> bool)
    requires DistinctIds(rows)
    ensures DistinctIds(Where(rows, keep))
  {
    if rows != [] {
      WhereDistinct(rows[1..], keep);
      var rest := Where(rows[1..], keep);
      forall i | 0 <= i < |rest| ensures rest[i].id != rows[0].id {
        assert rest[i] in rows[1..];
      }
    }
  }

  /** `ORDER BY created_at DESC, id DESC` */
  predicate Before(a: User, b: User) {
    a.createdAt > b.createdAt || (a.createdAt == b.createdAt && a.id > b.id)
  }

  predicate Descending(rows: seq<User>) {
    forall i, j :: 0 <= i < j < |rows| ==> Before(rows[i], rows[j])
  }

  function Place(user: User, rows: seq<User>): (placed: seq<User>)
    requires Descending(rows) && forall other :: other in rows ==> other.id != user.id
    ensures Descending(placed) && multiset(placed) == multiset(rows) + multiset{user}
    ensures forall other :: other in placed <==> other == user || other in rows
  {
    if rows == [] then [user]
    else if Before(user, rows[0]) then
      assert forall i, j :: 0 <= i < j < |[user] + rows| ==> Before(([user] + rows)[i], ([user] + rows)[j]);
      [user] + rows
    else
      assert rows == [rows[0]] + rows[1..];
      var rest := Place(user, rows[1..]);
      assert forall i :: 0 <= i < |rest| ==> rest[i] in rest;
      [rows[0]] + rest
  }

  function Ordered(rows: seq<User>): (ordered: seq<User>)
    requires DistinctIds(rows)
    ensures Descending(ordered) && multiset(ordered) == multiset(rows)
    ensures forall user :: user in ordered <==> user in rows
  {
    if rows == [] then []
    else
      assert rows == [rows[0]] + rows[1..];
      Place(rows[0], Ordered(rows[1..]))
  }

  datatype ListResult = ListResult(items: seq<User>, total: nat)

  /** The rows a listing is about, in the order they are shown. */
  function Listed(table: seq<User>, actor: UserRole, query: Query, like: Like): seq<User>
    requires DistinctIds(table)
  {
    WhereDistinct(table, user => Wanted(actor, query, like, user));
    Ordered(Where(table, user => Wanted(actor, query, like, user)))
  }

  /** The reader: one count, then one page of the same rows. */
  method ListUsers(table: seq<User>, criteria: Criteria, limit: nat, offset: nat, like: Like) returns (result: ListResult)
    requires DistinctIds(table)
    ensures var matching := Where(table, user => Matches(criteria, like, user));
            && DistinctIds(matching)
            && result == ListResult(Slice(Ordered(matching), limit, offset), |matching|)
  {
    var clauses, args, argIndex := BuildWhere(criteria, like);
    var holding := Where(table, user => AllHold(clauses, args, like, user));
    SameWhere(table, user => AllHold(clauses, args, like, user), user => Matches(criteria, like, user));
    WhereDistinct(table, user => AllHold(clauses, args, like, user));
    OrderedSize(holding);
    if |holding| == 0 {
      return ListResult([], 0);
    }
    result := ListResult(Slice(Ordered(holding), limit, offset), |holding|);
  }

  lemma OrderedSize(rows: seq<User>)
    requires DistinctIds(rows)
    ensures |Ordered(rows)| == |rows|
  {
    assert |multiset(Ordered(rows))| == |Ordered(rows)| && |multiset(rows)| == |rows|;
  }

  /** The criteria handed to the reader mean what the query asked for. */
  lemma CriteriaMeanQuery(actor: UserRole, query: Query, filter: Filter, criteria: Criteria, like: Like, user: User)
    requires Parsed(query, filter) && !filter.matchNone
    requires criteria.roles != [] && Narrowed(actor, filter, criteria)
    ensures Matches(criteria, like, user) <==> Wanted(actor, query, like, user)
  {
    assert filter.roles == [] ==> query.roles == [];
    assert filter.roles != [] ==> filter.roles[0] in filter.roles;
    assert filter.statuses == [] ==> query.statuses == [];
    assert filter.statuses != [] ==> filter.statuses[0] in filter.statuses;
  }

  /** The empty answer given without asking the reader is the right one. */
  lemma NobodyWanted(actor: UserRole, query: Query, filter: Filter, like: Like, user: User)
    requires Parsed(query, filter) && (filter.matchNone || NoneVisible(actor, filter))
    ensures !Wanted(actor, query, like, user)
  {
    assert filter.roles != [] ==> filter.roles[0] in filter.roles;
    assert NamesRole(query.roles, user.role) ==> user.role in filter.roles;
    assert NamesStatus(query.statuses, user.status) ==> user.status in filter.statuses;
  }

  /** From the query string to the page: exactly the wanted users, counted and cut. */
  method GetUserList(table: seq<User>, actor: UserRole, query: Query, page: int, limit: int, like: Like)
    returns (result: ListResult)
    requires DistinctIds(table) && page >= 1 && 1 <= limit <= MAXIMUM_LIMIT
    ensures result.items == PageOf(Listed(table, actor, query, like), limit, page)
    ensures result.total == |Listed(table, actor, query, like)|
  {
    var filter := ToInput(query);
    var criteria := EffectiveCriteria(actor, filter);
    ghost var wanted := (user: User) => Wanted(actor, query, like, user);
    WhereDistinct(table, wanted);
    OrderedSize(Where(table, wanted));
    if criteria.None? {
      forall user: User ensures !wanted(user) { NobodyWanted(actor, query, filter, like, user); }
      WhereNobody(table, wanted);
      return ListResult([], 0);
    }
    forall user: User ensures Matches(criteria.value, like, user) <==> wanted(user) {
      CriteriaMeanQuery(actor, query, filter, criteria.value, like, user);
    }
    SameWhere(table, user => Matches(criteria.value, like, user), wanted);
    result := ListUsers(table, criteria.value, limit, Start(page, limit), like);
  }

  lemma WhereNobody(rows: seq<User>, keep: User -> bool)
    requires forall user :: !keep(user)
    ensures Where(rows, keep) == []
  {
    assert Where(rows, keep) != [] ==> Where(rows, keep)[0] in Where(rows, keep);
  }

  /** Turning the announced pages shows exactly the wanted users, newest first, each once. */
  lemma EveryWantedUserOnce(table: seq<User>, actor: UserRole, query: Query, like: Like, limit: int)
    requires DistinctIds(table) && 1 <= limit <= MAXIMUM_LIMIT && |table| + limit - 1 <= Decimal.MAX_INT64
    ensures var listed := Listed(table, actor, query, like);
            && var announced := TotalPagesOf(|listed|, limit);
            && announced >= 0
            && Pages(listed, limit, announced) == listed
            && (forall i, j :: 0 <= i < j < |listed| ==>
                  listed[i].createdAt > listed[j].createdAt
                  || (listed[i].createdAt == listed[j].createdAt && listed[i].id > listed[j].id))
            && (forall user :: user in listed <==> user in table && Wanted(actor, query, like, user))
            && (forall user :: multiset(listed)[user] <= 1)
            && (forall page :: page > announced && page >= 1 ==> PageOf(listed, limit, page) == [])
  {
    var wanted := user => Wanted(actor, query, like, user);
    var listed := Listed(table, actor, query, like);
    WhereDistinct(table, wanted);
    OrderedSize(Where(table, wanted));
    PagesConcatenate(listed, limit);
    forall page | page > TotalPagesOf(|listed|, limit) && page >= 1 ensures PageOf(listed, limit, page) == [] {
      LaterPagesEmpty(listed, limit, page);
    }
    DescendingOnce(listed);
  }

  lemma {:induction false} DescendingOnce(rows: seq<User>)
    requires Descending(rows)
    ensures forall user :: multiset(rows)[user] <= 1
  {
    if rows != [] {
      DescendingOnce(rows[1..]);
      assert rows == [rows[0]] + rows[1..];
      assert rows[0] !in rows[1..];
      assert multiset(rows) == multiset{rows[0]} + multiset(rows[1..]);
    }
  }
}
