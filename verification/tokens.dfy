/** JWT issuance (claim construction, issuer, audience, lifetime) and the
    permission gate that reads the claims back. Signing and serialisation are
    kept abstract: a token is represented by its content. */
module Tokens {
  import opened Text
  import opened Entities
  import opened Permissions
  import Int32

  /** `ClaimTypes.NameIdentifier`, `ClaimTypes.Name`, `ClaimTypes.Role` and the custom permission type. */
  const NameIdentifierType: string := "http://schemas.xmlsoap.org/ws/2005/05/identity/claims/nameidentifier"
  const NameType: string := "http://schemas.xmlsoap.org/ws/2005/05/identity/claims/name"
  const RoleType: string := "http://schemas.microsoft.com/ws/2008/06/identity/claims/role"
  const PermissionType: string := "Permission"

  /** `SecurityAlgorithms.HmacSha256`. */
  const HmacSha256: string := "http://www.w3.org/2001/04/xmldsig-more#hmac-sha256"

  /** Time is counted in `DateTime` ticks of 100 ns. */
  const TicksPerMinute: int := 600_000_000
  const TicksPerHour: int := 60 * TicksPerMinute
  const TokenLifetime: int := 2 * TicksPerHour

  datatype Claim = Claim(claimType: string, value: string)

  /** The `Jwt:*` configuration section; the key is assumed present and long enough to sign with. */
  datatype JwtConfig = JwtConfig(key: string, issuer: Option<string>, audience: Option<string>)

  /** The content of a signed token. */
  datatype Jwt = Jwt(
    issuer: Option<string>,
    audience: Option<string>,
    claims: seq<Claim>,
    expires: int,
    algorithm: string,
    signingKey: string)

  /** One `Permission` claim per entry of `ps`, in order. */
  function PermissionClaims(ps: seq<Permission>): (cs: seq<Claim>)
    ensures |cs| == |ps|
    ensures forall i :: 0 <= i < |ps| ==> cs[i] == Claim(PermissionType, ps[i])
  {
    if |ps| == 0 then [] else [Claim(PermissionType, ps[0])] + PermissionClaims(ps[1..])
  }

  /** The claim list of a token for user `id`: identifier, name, role, then the permissions. */
  function ClaimsFor(table: map<Role, seq<Permission>>, id: int, user: UserRow): seq<Claim> {
    [Claim(NameIdentifierType, Int32.ToDecimal(id)),
     Claim(NameType, user.name),
     Claim(RoleType, RoleName(user.role))]
    + PermissionClaims(PermissionsOf(table, user.role))
  }

  /** The values of the `Permission` claims, in order. */
  function PermissionValues(cs: seq<Claim>): (ps: seq<Permission>)
    ensures |ps| <= |cs|
  {
    if |cs| == 0 then []
    else if cs[0].claimType == PermissionType then [cs[0].value] + PermissionValues(cs[1..])
    else PermissionValues(cs[1..])
  }

  /** The gate: allow iff some claim of type `Permission` has exactly the required value. */
  predicate HasPermission(cs: seq<Claim>, required: Permission) {
    Claim(PermissionType, required) in cs
  }

  /** `GenerateJwtToken`: the claims above, issuer and audience copied from configuration,
      HMAC-SHA-256 over the configured key, expiry two hours after `now`. */
  function GenerateJwtToken(cfg: JwtConfig, id: int, user: UserRow, now: int): (t: Jwt)
    ensures t.issuer == cfg.issuer && t.audience == cfg.audience
    ensures t.algorithm == HmacSha256 && t.signingKey == cfg.key
    ensures t.expires - now == 2 * 60 * 60 * 10_000_000
    ensures |t.claims| == 3 + |PermissionsOf(RolePermissions, user.role)|
  {
    Jwt(cfg.issuer, cfg.audience, ClaimsFor(RolePermissions, id, user), now + TokenLifetime, HmacSha256, cfg.key)
  }

  /** The claim list starts with the identity claims, in this order, and continues with
      one Permission claim per table entry of the user's role, in table order. */
  lemma ClaimsLayout(table: map<Role, seq<Permission>>, id: int, user: UserRow)
    ensures var cs := ClaimsFor(table, id, user);
      && |cs| == 3 + |PermissionsOf(table, user.role)|
      && cs[0] == Claim(NameIdentifierType, Int32.ToDecimal(id))
      && cs[1] == Claim(NameType, user.name)
      && cs[2] == Claim(RoleType, RoleName(user.role))
      && forall i :: 0 <= i < |PermissionsOf(table, user.role)| ==>
           cs[3 + i] == Claim(PermissionType, PermissionsOf(table, user.role)[i])
  {
  }

  /** The identifier claim reads back as the user id. */
  lemma IdentifierClaimRoundTrip(table: map<Role, seq<Permission>>, id: int, user: UserRow)
    requires Int32.InRange(id)
    ensures Int32.TryParse(ClaimsFor(table, id, user)[0].value) == Some(id)
  {
    Int32.ToDecimalRoundTrip(id);
  }

  lemma {:induction false} PermissionValuesOfPermissionClaims(ps: seq<Permission>)
    ensures PermissionValues(PermissionClaims(ps)) == ps
    decreases |ps|
  {
    if |ps| > 0 {
      PermissionValuesOfPermissionClaims(ps[1..]);
      assert PermissionClaims(ps)[1..] == PermissionClaims(ps[1..]);
    }
  }

  /** Reading the Permission claims back out of a token gives exactly the role's table
      entry, no more, no less, in order. */
  lemma PermissionClaimsRoundTrip(table: map<Role, seq<Permission>>, id: int, user: UserRow)
    ensures PermissionValues(ClaimsFor(table, id, user)) == PermissionsOf(table, user.role)
  {
    var ps := PermissionsOf(table, user.role);
    var cs := ClaimsFor(table, id, user);
    PermissionValuesOfPermissionClaims(ps);
    assert cs[0].claimType != PermissionType && cs[1].claimType != PermissionType && cs[2].claimType != PermissionType;
    assert PermissionValues(cs) == PermissionValues(cs[1..]);
    assert PermissionValues(cs[1..]) == PermissionValues(cs[1..][1..]);
    assert PermissionValues(cs[1..][1..]) == PermissionValues(cs[1..][1..][1..]);
    assert cs[1..][1..][1..] == PermissionClaims(ps);
  }

  /** A role with no table entry yields a token with no Permission claim at all,
      and the gate then denies every permission. */
  lemma MissingRoleHasNoPermissions(table: map<Role, seq<Permission>>, id: int, user: UserRow, p: Permission)
    requires user.role !in table
    ensures |ClaimsFor(table, id, user)| == 3
    ensures !HasPermission(ClaimsFor(table, id, user), p)
  {
  }

  /** The gate applied to an issued token grants exactly the permissions the role's
      table entry lists. */
  lemma GateMatchesTable(table: map<Role, seq<Permission>>, id: int, user: UserRow, p: Permission)
    ensures HasPermission(ClaimsFor(table, id, user), p) <==> p in PermissionsOf(table, user.role)
  {
    var ps := PermissionsOf(table, user.role);
    var cs := ClaimsFor(table, id, user);
    if p in ps {
      var i :| 0 <= i < |ps| && ps[i] == p;
      assert cs[3 + i] == Claim(PermissionType, p);
    }
    if HasPermission(cs, p) {
      var j :| 0 <= j < |cs| && cs[j] == Claim(PermissionType, p);
      assert j >= 3;
      assert ps[j - 3] == p;
    }
  }

  /** The same for the tokens the application actually issues. */
  lemma IssuedTokenGate(cfg: JwtConfig, id: int, user: UserRow, now: int, p: Permission)
    ensures HasPermission(GenerateJwtToken(cfg, id, user, now).claims, p)
      <==> p in PermissionsOf(RolePermissions, user.role)
  {
    GateMatchesTable(RolePermissions, id, user, p);
  }
}
