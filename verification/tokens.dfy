/** The claims of an access token and the token itself. Signing and the
    compact serialisation are not modelled: a token is the record of what it
    carries. */
module Tokens {
  import opened Wrappers
  import opened Users

  datatype Claim = Claim(claimType: string, value: string)

  /** Claim type names: the custom one, the `ClaimTypes` URIs and the
      registered JWT name for the subject. */
  const UserIdClaim: string := "LM_User_Id"
  const NameIdentifierClaim: string := "http://schemas.xmlsoap.org/ws/2005/05/identity/claims/nameidentifier"
  const EmailClaim: string := "http://schemas.xmlsoap.org/ws/2005/05/identity/claims/emailaddress"
  const SubjectClaim: string := "sub"
  const RoleClaim: string := "http://schemas.microsoft.com/ws/2008/06/identity/claims/role"

  /** Lifetime of an issued token, in seconds. */
  const OneHour: int := 3600

  /** Issuer and audience read from the application configuration. */
  datatype JwtConfig = JwtConfig(issuer: string, audience: string)

  datatype Jwt = Jwt(issuer: string, audience: string, claims: seq<Claim>, expires: int)

  /** One role claim per role, in role order. */
  function RoleClaims(roles: seq<string>): (cs: seq<Claim>)
    ensures |cs| == |roles|
  {
    if |roles| == 0 then [] else [Claim(RoleClaim, roles[0])] + RoleClaims(roles[1..])
  }

  /** The claim list of `IssueToken`. A `Claim` refuses a null value, so an
      account without an id yields no claim list at all. */
  function IssueClaims(u: User): (r: Option<seq<Claim>>)
    ensures r.None? <==> u.id.None?
    ensures r.Some? ==> |r.value| == 4 + |u.roles|
  {
    match u.id
    case None => None
    case Some(id) =>
      Some([Claim(UserIdClaim, id), Claim(NameIdentifierClaim, id), Claim(EmailClaim, u.email), Claim(SubjectClaim, id)]
           + RoleClaims(u.roles))
  }

  /** The token `IssueToken` builds at time `now`, before signing. */
  function IssueToken(u: User, cfg: JwtConfig, now: int): (r: Option<Jwt>)
    ensures r.None? <==> u.id.None?
    ensures r.Some? ==> r.value.expires == now + OneHour
    ensures r.Some? ==> r.value.issuer == cfg.issuer && r.value.audience == cfg.audience
    ensures r.Some? ==> r.value.claims == IssueClaims(u).value
  {
    match IssueClaims(u)
    case None => None
    case Some(cs) => Some(Jwt(cfg.issuer, cfg.audience, cs, now + OneHour))
  }

  /** `Claims.FirstOrDefault(claim => claim.Type == "sub")?.Value`. */
  function Subject(cs: seq<Claim>): (r: Option<string>)
    ensures r.Some? <==> exists i :: 0 <= i < |cs| && cs[i].claimType == SubjectClaim
    ensures r.Some? ==> exists i :: && 0 <= i < |cs| && cs[i] == Claim(SubjectClaim, r.value)
                                   && forall j :: 0 <= j < i ==> cs[j].claimType != SubjectClaim
  {
    if |cs| == 0 then None
    else if cs[0].claimType == SubjectClaim then Some(cs[0].value)
    else Subject(cs[1..])
  }

  /** The values of the role claims, in order: what a consumer of the token
      reads as the holder's roles. */
  function Roles(cs: seq<Claim>): (rs: seq<string>)
    ensures |rs| <= |cs|
  {
    if |cs| == 0 then []
    else (if cs[0].claimType == RoleClaim then [cs[0].value] else []) + Roles(cs[1..])
  }

  lemma {:induction false} RolesAppend(a: seq<Claim>, b: seq<Claim>)
    ensures Roles(a + b) == Roles(a) + Roles(b)
  {
    if |a| > 0 {
      assert (a + b)[1..] == a[1..] + b;
      RolesAppend(a[1..], b);
    } else {
      assert a + b == b;
    }
  }

  lemma {:induction false} RolesOfRoleClaims(roles: seq<string>)
    ensures Roles(RoleClaims(roles)) == roles
  {
    if |roles| > 0 {
      RolesOfRoleClaims(roles[1..]);
    }
  }

  lemma {:induction false} RoleClaimsAt(roles: seq<string>, i: int)
    requires 0 <= i < |roles|
    ensures RoleClaims(roles)[i] == Claim(RoleClaim, roles[i])
  {
    if i > 0 {
      RoleClaimsAt(roles[1..], i - 1);
    }
  }

  /** The shape of the issued claim list: the id claim, the name identifier,
      the e-mail and the subject, in that order, then one role claim per
      role in role order. */
  lemma IssuedClaimLayout(u: User)
    requires u.id.Some?
    ensures var cs := IssueClaims(u).value;
      && |cs| == 4 + |u.roles|
      && cs[..4] == [Claim(UserIdClaim, u.id.value), Claim(NameIdentifierClaim, u.id.value),
                     Claim(EmailClaim, u.email), Claim(SubjectClaim, u.id.value)]
      && forall i :: 0 <= i < |u.roles| ==> cs[4 + i] == Claim(RoleClaim, u.roles[i])
  {
    var cs := IssueClaims(u).value;
    forall i | 0 <= i < |u.roles|
      ensures cs[4 + i] == Claim(RoleClaim, u.roles[i])
    {
      RoleClaimsAt(u.roles, i);
    }
  }

  /** The subject read back from an issued claim list is the account's id:
      the round trip between `IssueToken` and the verify endpoint. */
  lemma IssuedSubjectIsId(u: User)
    requires u.id.Some?
    ensures Subject(IssueClaims(u).value) == u.id
  {
    var id := u.id.value;
    var cs := IssueClaims(u).value;
    assert UserIdClaim != SubjectClaim && NameIdentifierClaim != SubjectClaim && EmailClaim != SubjectClaim;
    assert Subject(cs) == Subject(cs[1..]);
    assert Subject(cs[1..]) == Subject(cs[1..][1..]);
    assert Subject(cs[1..][1..]) == Subject(cs[1..][1..][1..]);
    assert cs[1..][1..][1..][0] == Claim(SubjectClaim, id);
  }

  /** The role claims read back from an issued claim list are exactly the
      account's roles, in order. */
  lemma IssuedRolesAreRoles(u: User)
    requires u.id.Some?
    ensures Roles(IssueClaims(u).value) == u.roles
  {
    var head := [Claim(UserIdClaim, u.id.value), Claim(NameIdentifierClaim, u.id.value),
                 Claim(EmailClaim, u.email), Claim(SubjectClaim, u.id.value)];
    RolesAppend(head, RoleClaims(u.roles));
    RolesOfRoleClaims(u.roles);
    assert UserIdClaim != RoleClaim && NameIdentifierClaim != RoleClaim;
    assert EmailClaim != RoleClaim && SubjectClaim != RoleClaim;
    assert Roles(head) == Roles(head[1..]);
    assert Roles(head[1..]) == Roles(head[1..][1..]);
    assert Roles(head[1..][1..]) == Roles(head[1..][1..][1..]);
    assert Roles(head[1..][1..][1..]) == Roles(head[1..][1..][1..][1..]);
    assert head[1..][1..][1..][1..] == [];
  }
}
