/** JWT claims: the domain value, its wire form with NumericDate instants, and the way
    back through the signed envelope. */
module TokenClaims {
  import opened Domain
  import opened Permissions
  import Text

  const ACCESS := "access"
  const REFRESH := "refresh"
  const ISSUER := "goat-api"
  const AUDIENCE := "api"

  /** Instants and durations in nanoseconds. */
  const SECOND: int := 1_000_000_000

  datatype Identity = Identity(userId: string, sessionId: string, jti: string, credentialVersion: int)

  datatype Snapshot = Snapshot(role: UserRole, permissions: PermissionSet)

  datatype Claims = Claims(
    userId: string, sessionId: string, credentialVersion: int, role: UserRole, permissions: PermissionSet,
    tokenType: string, jti: string, issuer: string, subject: string, audience: seq<string>,
    expiresAt: int, issuedAt: int, notBefore: int)

  datatype Wire = Wire(
    userId: string, sessionId: string, credentialVersion: int, tokenType: string, role: string,
    permissions: seq<string>, issuer: string, subject: string, audience: seq<string>,
    expiresAt: Option<int>, notBefore: Option<int>, issuedAt: Option<int>, id: string)

  datatype Parsed = Valid(claims: Claims) | Expired | Invalid

  predicate IsAccess(c: Claims) {
    c.tokenType == ACCESS
  }

  function NewJWTClaims(id: Identity, tokenType: string, expiresAt: int, issuedAt: int, snapshot: Snapshot): Option<Claims> {
    if id.userId == "" || id.sessionId == "" || id.jti == "" || id.credentialVersion <= 0 then None
    else if tokenType != ACCESS && tokenType != REFRESH then None
    else if expiresAt <= issuedAt then None
    else if tokenType == ACCESS && snapshot.role.RoleUnknown? then None
    else
      Some(Claims(id.userId, id.sessionId, id.credentialVersion, snapshot.role, snapshot.permissions, tokenType,
        id.jti, ISSUER, tokenType, [AUDIENCE], expiresAt, issuedAt, issuedAt))
  }

  /** NumericDate, section 2 of RFC 7519, at the precision of whole seconds. */
  function Truncate(t: int): (r: int)
    ensures r <= t < r + SECOND
  {
    t - t % SECOND
  }

  function FromDomain(c: Claims): Wire {
    Wire(c.userId, c.sessionId, c.credentialVersion, c.tokenType, if IsAccess(c) then c.role.Name() else "",
      c.permissions, c.issuer, c.subject, c.audience,
      Some(Truncate(c.expiresAt)), Some(Truncate(c.notBefore)), Some(Truncate(c.issuedAt)), c.jti)
  }

  function IdentityOf(w: Wire): Identity {
    Identity(w.userId, w.sessionId, w.id, w.credentialVersion)
  }

  function ToDomain(w: Wire): Option<Claims> {
    if w.subject != w.tokenType || (w.tokenType != ACCESS && w.tokenType != REFRESH) then None
    else if w.expiresAt.None? || w.issuedAt.None? || w.notBefore.None? then None
    else if w.tokenType == ACCESS then
      var role, permissions := ParseUserRole(w.role), NormalForm(w.permissions);
      if role.None? || permissions.None? then None
      else
        NewJWTClaims(IdentityOf(w), w.tokenType, w.expiresAt.value, w.issuedAt.value,
          Snapshot(role.value, permissions.value))
    else if w.role != "" || w.permissions != [] then None
    else
      NewJWTClaims(IdentityOf(w), w.tokenType, w.expiresAt.value, w.issuedAt.value, Snapshot(RoleUnknown, []))
  }

  method TokenClaimsFromDomain(c: Claims) returns (w: Wire)
    ensures w == FromDomain(c)
  {
    var permissionClaims := new string[|c.permissions|];
    for index := 0 to |c.permissions|
      invariant permissionClaims[..index] == c.permissions[..index]
    {
      permissionClaims[index] := c.permissions[index];
    }
    var role := "";
    if IsAccess(c) {
      role := c.role.Name();
    }
    w := Wire(c.userId, c.sessionId, c.credentialVersion, c.tokenType, role, permissionClaims[..], c.issuer,
      c.subject, c.audience, Some(Truncate(c.expiresAt)), Some(Truncate(c.notBefore)), Some(Truncate(c.issuedAt)), c.jti);
  }

  /** Parses the permissions one by one and stops at the first unknown one. */
  method WireToDomain(w: Wire) returns (result: Option<Claims>)
    ensures result == ToDomain(w)
  {
    if w.subject != w.tokenType || (w.tokenType != ACCESS && w.tokenType != REFRESH) {
      return None;
    }
    if w.expiresAt.None? || w.issuedAt.None? || w.notBefore.None? {
      return None;
    }
    var snapshot := Snapshot(RoleUnknown, []);
    if w.tokenType == ACCESS {
      var role := ParseUserRole(w.role);
      if role.None? {
        return None;
      }
      var permissions := new string[|w.permissions|];
      for index := 0 to |w.permissions|
        invariant permissions[..index] == w.permissions[..index]
        invariant forall i :: 0 <= i < index ==> IsPermission(w.permissions[i])
      {
        if !IsPermission(w.permissions[index]) {
          assert w.permissions[index] in w.permissions;
          return None;
        }
        permissions[index] := w.permissions[index];
      }
      assert permissions[..] == w.permissions;
      var permissionSet := NewPermissionSet(permissions[..]);
      if permissionSet.None? {
        return None;
      }
      snapshot := Snapshot(role.value, permissionSet.value);
    } else if w.role != "" || |w.permissions| != 0 {
      return None;
    }
    result := NewJWTClaims(IdentityOf(w), w.tokenType, w.expiresAt.value, w.issuedAt.value, snapshot);
  }

  // ----- the round trip -----

  /** What a token says after a trip over the wire. */
  function OverTheWire(c: Claims): Claims {
    c.(role := if IsAccess(c) then c.role else RoleUnknown,
       expiresAt := Truncate(c.expiresAt), issuedAt := Truncate(c.issuedAt), notBefore := Truncate(c.notBefore))
  }

  /** Claims some caller built from a normal permission set. */
  ghost predicate Built(c: Claims) {
    && Normal(c.permissions)
    && NewJWTClaims(Identity(c.userId, c.sessionId, c.jti, c.credentialVersion), c.tokenType, c.expiresAt, c.issuedAt,
         Snapshot(c.role, c.permissions)) == Some(c)
  }

  lemma NormalStaysNormal(values: PermissionSet)
    requires Normal(values)
    ensures NormalForm(values) == Some(values)
  {
    Text.SortedSetOfSorted(values);
  }

  /** The trip returns the same identity, type, role and permissions with instants cut
      to seconds, exactly when a whole second separates issue from expiry and a
      refresh token carries no permissions; otherwise nothing comes back. */
  lemma RoundTrip(c: Claims)
    requires Built(c)
    ensures ToDomain(FromDomain(c))
         == if Truncate(c.issuedAt) < Truncate(c.expiresAt) && (IsAccess(c) || c.permissions == [])
            then Some(OverTheWire(c)) else None
  {
    NormalStaysNormal(c.permissions);
    ParseRoleNames(c.role.Name(), c.role);
    assert c.tokenType == ACCESS || c.tokenType == REFRESH;
  }

  /** The exact condition in terms of the clock: some whole second lies after the issue
      instant and not after the expiry. A duration of one second always meets it. */
  lemma WholeSecondBetween(issuedAt: int, expiresAt: int)
    requires issuedAt < expiresAt
    ensures Truncate(issuedAt) < Truncate(expiresAt) <==> Truncate(expiresAt) > issuedAt
    ensures Truncate(issuedAt) < Truncate(expiresAt) <==> exists n :: issuedAt < n * SECOND <= expiresAt
    ensures expiresAt - issuedAt >= SECOND ==> Truncate(issuedAt) < Truncate(expiresAt)
  {
    var q := expiresAt / SECOND;
    assert Truncate(expiresAt) == q * SECOND;
    forall n | issuedAt < n * SECOND <= expiresAt ensures n <= q && Truncate(issuedAt) < Truncate(expiresAt) {
    }
    if Truncate(issuedAt) < Truncate(expiresAt) {
      assert issuedAt < q * SECOND <= expiresAt;
    }
  }

  /** Claims that came over the wire are a normal form: another trip changes nothing. */
  lemma WireFormIsStable(w: Wire, c: Claims)
    requires ToDomain(w) == Some(c)
    requires Truncate(c.issuedAt) == c.issuedAt && Truncate(c.expiresAt) == c.expiresAt
    ensures Built(c) && ToDomain(FromDomain(c)) == Some(c)
  {
    assert Normal([]);
    assert Built(c);
    RoundTrip(c);
  }

  // ----- the life of a token -----

  function ValidateClaims(c: Claims, now: int): Parsed {
    if now < c.notBefore then Invalid
    else if now >= c.expiresAt then Expired
    else if c.userId == "" || c.sessionId == "" || c.jti == "" || c.credentialVersion <= 0 then Invalid
    else if IsAccess(c) && c.role.RoleUnknown? then Invalid
    else if c.tokenType != ACCESS && c.tokenType != REFRESH then Invalid
    else Valid(c)
  }

  /** An envelope with a genuine signature; the library's checks come first, and an
      expiry among its complaints decides the answer. */
  function ParseAndValidate(w: Wire, now: int): Parsed {
    if w.expiresAt.Some? && now >= w.expiresAt.value then Expired
    else if w.notBefore.Some? && now < w.notBefore.value then Invalid
    else if w.issuer != ISSUER || AUDIENCE !in w.audience then Invalid
    else
      var c := ToDomain(w);
      if c.None? then Invalid else ValidateClaims(c.value, now)
  }

  function GenerateToken(id: Identity, tokenType: string, snapshot: Snapshot, now: int, duration: int): Option<Claims> {
    NewJWTClaims(id, tokenType, now + duration, now, snapshot)
  }

  /** A token minted for at least a second is accepted exactly from the second of its
      issue until the last whole second of its life, with its own claims, and is
      reported as expired from then on. */
  lemma TokenLife(id: Identity, tokenType: string, snapshot: Snapshot, issued: int, duration: int, now: int)
    requires duration >= SECOND && Normal(snapshot.permissions)
    requires tokenType == REFRESH ==> snapshot == Snapshot(RoleUnknown, [])
    requires GenerateToken(id, tokenType, snapshot, issued, duration).Some?
    ensures var c := GenerateToken(id, tokenType, snapshot, issued, duration).value;
            var answer := ParseAndValidate(FromDomain(c), now);
            && (answer == Valid(OverTheWire(c)) <==> Truncate(issued) <= now < Truncate(issued + duration))
            && (answer == Expired <==> now >= Truncate(issued + duration))
            && (answer == Invalid <==> now < Truncate(issued))
            && OverTheWire(c).role == snapshot.role && OverTheWire(c).permissions == snapshot.permissions
  {
    var c := GenerateToken(id, tokenType, snapshot, issued, duration).value;
    assert Built(c);
    RoundTrip(c);
    WholeSecondBetween(issued, issued + duration);
  }

  /** Whatever claims an envelope carries, what is accepted is well formed and current. */
  lemma AcceptedIsSound(w: Wire, now: int)
    requires ParseAndValidate(w, now).Valid?
    ensures var c := ParseAndValidate(w, now).claims;
            && Built(c)
            && c.issuedAt <= now < c.expiresAt
            && (IsAccess(c) ==> c.role.IsKnown() && w.role == c.role.Name())
            && (!IsAccess(c) ==> c.role.RoleUnknown? && c.permissions == [])
            && (forall p :: p in c.permissions <==> p in w.permissions)
  {
    var c := ToDomain(w).value;
    assert ParseUserRole(w.role).Some? ==> ParseUserRole(w.role).value.Name() == w.role;
    assert Normal(c.permissions);
  }

  /** The identity is complete. */
  predicate Identified(w: Wire) {
    w.userId != "" && w.sessionId != "" && w.id != "" && w.credentialVersion > 0
  }

  /** An access token names a known role and known permissions, a refresh token neither. */
  predicate WellTyped(w: Wire) {
    && w.subject == w.tokenType
    && if w.tokenType == "access" then
         w.role in {"client", "operator", "admin"} && forall p :: p in w.permissions ==> IsPermission(p)
       else
         w.tokenType == "refresh" && w.role == "" && w.permissions == []
  }

  /** The service issued the envelope for itself, and it is neither early nor expired. */
  predicate InForce(w: Wire, now: int) {
    && w.issuer == "goat-api" && "api" in w.audience
    && w.expiresAt.Some? && w.issuedAt.Some? && w.notBefore.Some?
    && w.notBefore.value <= now && w.issuedAt.value <= now < w.expiresAt.value
  }

  /** An envelope is accepted exactly when it is identified, well typed and in force. */
  lemma AcceptedExactlyWhen(w: Wire, now: int)
    ensures ParseAndValidate(w, now).Valid? <==> Identified(w) && WellTyped(w) && InForce(w, now)
    ensures ParseAndValidate(w, now).Valid? ==>
              var c := ParseAndValidate(w, now).claims;
              && (c.userId, c.sessionId, c.jti, c.credentialVersion) == (w.userId, w.sessionId, w.id, w.credentialVersion)
              && c.tokenType == w.tokenType && c.issuedAt == w.issuedAt.value && c.expiresAt == w.expiresAt.value
  {
    assert ACCESS != REFRESH;
  }
}
