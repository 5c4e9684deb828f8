/**
 * TokenService and the password hashing the auth code relies on. The signed
 * JWT is represented by what it carries (issuer, audience, claims, expiry); the
 * signature and the compact encoding are not part of the model. BCrypt is
 * passed in as a pair of functions of which only one property is assumed by the
 * callers: a password verifies against any hash made from it.
 */
module Tokens {
  import opened Wrappers
  import opened Entities
  import opened Text

  /** The JwtSettings configuration section. */
  datatype JwtSettings = JwtSettings(
    secretKey: string,
    issuer: string,
    audience: string,
    expirationMinutes: int,
    refreshTokenExpirationDays: int)

  /**
   * The claim types the service writes: the four standard ones of
   * System.Security.Claims.ClaimTypes (each a fixed URI) and custom ones named
   * by a plain string ("firstName", "lastName").
   */
  datatype ClaimType = NameIdentifier | Name | Email | Role | Custom(name: string)

  datatype Claim = Claim(kind: ClaimType, value: string)

  /** The content of a signed access token. */
  datatype AccessToken = AccessToken(issuer: string, audience: string, claims: seq<Claim>, expires: Time)

  /** The value of the first claim of that type, as `FindFirst(type)?.Value` reads it. */
  function ClaimValue(t: AccessToken, kind: ClaimType): (r: Option<string>)
    ensures r.Some? <==> exists c :: c in t.claims && c.kind == kind
  {
    match FindFirstClaim(t.claims, kind)
    case None => None
    case Some(k) => Some(t.claims[k].value)
  }

  function FindFirstClaim(claims: seq<Claim>, kind: ClaimType): (r: Option<nat>)
    ensures r.Some? ==> r.value < |claims| && claims[r.value].kind == kind
    ensures r.Some? ==> forall j :: 0 <= j < r.value ==> claims[j].kind != kind
    ensures r.None? <==> forall c :: c in claims ==> c.kind != kind
  {
    if claims == [] then None
    else if claims[0].kind == kind then Some(0)
    else match FindFirstClaim(claims[1..], kind)
      case None => None
      case Some(k) => Some(k + 1)
  }

  /** A claim type that occurs once is read back as that claim's value. */
  lemma OnlyClaimOfKind(t: AccessToken, k: nat, kind: ClaimType)
    requires k < |t.claims| && t.claims[k].kind == kind
    requires forall j :: 0 <= j < |t.claims| && j != k ==> t.claims[j].kind != kind
    ensures ClaimValue(t, kind) == Some(t.claims[k].value)
  {
    assert t.claims[k] in t.claims;
  }

  /** The claims of the user that GenerateAccessToken writes, in order. */
  function UserClaims(u: User): (c: seq<Claim>)
    ensures |c| == 6
  {
    [Claim(NameIdentifier, IntToString(u.id)), Claim(Name, u.username), Claim(Email, u.email),
     Claim(Role, u.role), Claim(Custom("firstName"), u.firstName.GetOr("")), Claim(Custom("lastName"), u.lastName.GetOr(""))]
  }

  /** GenerateAccessToken: the user's claims, issued for the configured audience, valid ExpirationMinutes from now. */
  function GenerateAccessToken(u: User, settings: JwtSettings, now: Time): (t: AccessToken)
    ensures t.expires == AddMinutes(now, settings.expirationMinutes)
    ensures t.issuer == settings.issuer && t.audience == settings.audience
  {
    AccessToken(settings.issuer, settings.audience, UserClaims(u), AddMinutes(now, settings.expirationMinutes))
  }

  /** A consumer of the token reads back the user's id, name, e-mail and role. */
  lemma AccessTokenIdentifiesUser(u: User, settings: JwtSettings, now: Time)
    ensures var t := GenerateAccessToken(u, settings, now);
      && ClaimValue(t, NameIdentifier) == Some(IntToString(u.id))
      && ClaimValue(t, Name) == Some(u.username)
      && ClaimValue(t, Email) == Some(u.email)
      && ClaimValue(t, Role) == Some(u.role)
  {
    var t := GenerateAccessToken(u, settings, now);
    var c := t.claims;
    assert c[0].kind == NameIdentifier && c[1].kind == Name && c[2].kind == Email && c[3].kind == Role;
    assert c[4].kind.Custom? && c[5].kind.Custom?;
    OnlyClaimOfKind(t, 0, NameIdentifier);
    OnlyClaimOfKind(t, 1, Name);
    OnlyClaimOfKind(t, 2, Email);
    OnlyClaimOfKind(t, 3, Role);
  }

  /** The first and last name claims read back as the user's names, a null name as the empty string. */
  lemma AccessTokenNames(u: User, settings: JwtSettings, now: Time)
    ensures var t := GenerateAccessToken(u, settings, now);
      && ClaimValue(t, Custom("firstName")) == Some(u.firstName.GetOr(""))
      && ClaimValue(t, Custom("lastName")) == Some(u.lastName.GetOr(""))
  {
    var t := GenerateAccessToken(u, settings, now);
    var c := t.claims;
    assert !c[0].kind.Custom? && !c[1].kind.Custom? && !c[2].kind.Custom? && !c[3].kind.Custom?;
    assert c[4].kind == Custom("firstName") && c[5].kind == Custom("lastName");
    OnlyClaimOfKind(t, 4, Custom("firstName"));
    OnlyClaimOfKind(t, 5, Custom("lastName"));
  }

  /** The token depends on the claim fields alone, so rotating the refresh token or stamping the login time does not change it. */
  lemma TokenDependsOnlyOnClaimFields(u: User, v: User, settings: JwtSettings, now: Time)
    requires u.id == v.id && u.username == v.username && u.email == v.email && u.role == v.role
    requires u.firstName.GetOr("") == v.firstName.GetOr("") && u.lastName.GetOr("") == v.lastName.GetOr("")
    ensures GenerateAccessToken(u, settings, now) == GenerateAccessToken(v, settings, now)
  {
  }

  /**
   * BCrypt's HashPassword (password, salt) and Verify (password, hash). The
   * salt is the random part HashPassword draws itself.
   */
  datatype PasswordHasher = PasswordHasher(hash: (string, string) -> string, verify: (string, string) -> bool)

  /** The one property of BCrypt the code relies on. */
  ghost predicate Sound(h: PasswordHasher) {
    forall password, salt :: h.verify(password, h.hash(password, salt))
  }
}
