/** The account workflow of `AuthController`: register, verify and login as
    transitions of the user store, and the invariants they keep. */
module Auth {
  import opened Wrappers
  import opened Users
  import opened Validation
  import opened Hashing
  import opened Tokens
  import opened UserStore

  /** Response bodies: `new { message = … }`, a bare string, `new { Token = … }`,
      and the automatic validation-problem body of `[ApiController]`. */
  datatype Body = Message(text: string) | Text(text: string) | TokenBody(token: Jwt) | ValidationProblem

  /** HTTP outcomes; `ServerError` is an exception the controller does not catch. */
  datatype Response = Ok(body: Body) | BadRequest(body: Body) | Unauthorized(body: Body) | ServerError

  /** What the controller receives from outside: the hashing primitives and
      the token issuer and audience. */
  datatype Env = Env(crypto: Crypto, jwt: JwtConfig)

  /** The verify endpoint's path segment after `ReadJwtToken`: either it could
      not be decoded, or it is a token with these payload claims. */
  datatype TokenText = Malformed | Parsed(claims: seq<Claim>)

  const DefaultRole: string := "user"

  predicate EmailTaken(s: Store, email: string) {
    exists i :: 0 <= i < |s| && s[i].email == email
  }

  predicate CredentialsMatch(s: Store, email: string, digest: string) {
    exists i :: 0 <= i < |s| && s[i].email == email && s[i].password == digest
  }

  /** The account the register action builds, before the store gives it an
      id: the initializer's fields, the confirmation default overridden to
      true, and "user" added to the empty role list. */
  function RegisteredUser(env: Env, email: string, name: string, password: string): (u: User)
    ensures u.id == None
    ensures u.email == email && u.name == name
    ensures u.password == PasswordHash(env.crypto, password)
    ensures u.isEmailConfirmed
    ensures u.roles == [DefaultRole]
  {
    var u := NewUser(email, name, PasswordHash(env.crypto, password)).(isEmailConfirmed := true);
    u.(roles := u.roles + [DefaultRole])
  }

  /** `POST register`. An invalid body is turned away by `[ApiController]`
      before the action runs; then a taken e-mail is refused; otherwise one
      confirmed account with the single role "user" is appended, unless the
      store's unique id index refuses the generated id. */
  function Register(env: Env, s: Store, b: UserRegister, freshId: string): (r: (Store, Response))
    ensures !ValidRegister(b) ==> r == (s, BadRequest(ValidationProblem))
    ensures ValidRegister(b) && EmailTaken(s, b.email.value) ==>
      r == (s, BadRequest(Message("Email " + b.email.value + " is taken")))
    ensures ValidRegister(b) && !EmailTaken(s, b.email.value) && HasId(s, Some(freshId)) ==>
      r == (s, ServerError)
    ensures ValidRegister(b) && !EmailTaken(s, b.email.value) && !HasId(s, Some(freshId)) ==>
      && r.1 == Ok(Message("User account created"))
      && |r.0| == |s| + 1 && r.0[..|s|] == s
      && r.0[|s|] == User(Some(freshId), b.email.value, b.name.value,
                          PasswordHash(env.crypto, b.password.value), true, ["user"])
  {
    if !ValidRegister(b) then (s, BadRequest(ValidationProblem))
    else if Get(s, EmailIs(b.email.value)).Some? then
      (s, BadRequest(Message("Email " + b.email.value + " is taken")))
    else
      var u := RegisteredUser(env, b.email.value, b.name.value, b.password.value);
      match Insert(s, u, freshId)
      case None => (s, ServerError)
      case Some(s') => (s', Ok(Message("User account created")))
  }

  /** `GET verify/{token}`. The subject claim is read without checking the
      signature or the expiry; the first account with that id is confirmed. */
  function Verify(s: Store, t: TokenText): (r: (Store, Response))
    ensures t.Malformed? ==> r == (s, ServerError)
    ensures t.Parsed? && !HasId(s, Subject(t.claims)) ==> r == (s, BadRequest(Message("Account not found")))
    ensures t.Parsed? && HasId(s, Subject(t.claims)) ==>
      && r.1 == Ok(Message("Email verified"))
      && |r.0| == |s|
      && exists k :: && 0 <= k < |s| && s[k].id == Subject(t.claims)
                     && (forall j :: 0 <= j < k ==> s[j].id != Subject(t.claims))
                     && r.0[k] == s[k].(isEmailConfirmed := true)
                     && (forall j :: 0 <= j < |s| && j != k ==> r.0[j] == s[j])
  {
    match t
    case Malformed => (s, ServerError)
    case Parsed(claims) =>
      var id := Subject(claims);
      if Get(s, IdIs(id)).None? then (s, BadRequest(Message("Account not found")))
      else (UpdateOne(s, IdIs(id), SetEmailConfirmed(true)), Ok(Message("Email verified")))
  }

  /** `POST login`. Succeeds exactly when some account has the e-mail and the
      digest of the password; unknown e-mail and wrong password give the same
      answer. The store is only read. */
  function Login(env: Env, s: Store, b: UserLogin, now: int): (r: Response)
    ensures !ValidLogin(b) ==> r == BadRequest(Text("Invalid Request Body"))
    ensures ValidLogin(b) && !CredentialsMatch(s, b.email.value, PasswordHash(env.crypto, b.password.value)) ==>
      r == Unauthorized(Text("Invalid Login credentials"))
    ensures ValidLogin(b) && IdsAssigned(s) ==>
      (r.Ok? <==> CredentialsMatch(s, b.email.value, PasswordHash(env.crypto, b.password.value)))
    ensures r.Ok? ==> exists i :: && 0 <= i < |s|
                                  && s[i].email == b.email.value
                                  && s[i].password == PasswordHash(env.crypto, b.password.value)
                                  && s[i].id.Some?
                                  && r == Ok(TokenBody(IssueToken(s[i], env.jwt, now).value))
  {
    if !ValidLogin(b) then BadRequest(Text("Invalid Request Body"))
    else
      match Get(s, Credentials(b.email.value, PasswordHash(env.crypto, b.password.value)))
      case None => Unauthorized(Text("Invalid Login credentials"))
      case Some(u) =>
        match IssueToken(u, env.jwt, now)
        case None => ServerError
        case Some(token) => Ok(TokenBody(token))
  }
}
