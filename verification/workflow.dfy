/** Sequences of requests handled one after another, and the properties of
    the account workflow that hold across calls. */
module Workflow {
  import opened Wrappers
  import opened Users
  import opened Validation
  import opened Hashing
  import opened Tokens
  import opened UserStore
  import opened Auth

  /** One request to the controller. `freshId` is the id the store will
      generate for an insert; `now` is the clock reading at login. */
  datatype Request =
    | RegisterRequest(registerBody: UserRegister, freshId: string)
    | VerifyRequest(token: TokenText)
    | LoginRequest(loginBody: UserLogin, now: int)

  function Step(env: Env, s: Store, req: Request): (Store, Response) {
    match req
    case RegisterRequest(b, freshId) => Register(env, s, b, freshId)
    case VerifyRequest(t) => Verify(s, t)
    case LoginRequest(b, now) => (s, Login(env, s, b, now))
  }

  /** The store after handling the requests in order. */
  function Run(env: Env, s: Store, reqs: seq<Request>): Store
    decreases |reqs|
  {
    if |reqs| == 0 then s else Run(env, Step(env, s, reqs[0]).0, reqs[1..])
  }

  /** What every reachable store satisfies. */
  predicate Invariant(s: Store) {
    UniqueEmails(s) && UniqueIds(s) && IdsAssigned(s)
  }

  lemma RegisterPreservesInvariant(env: Env, s: Store, b: UserRegister, freshId: string)
    requires Invariant(s)
    ensures Invariant(Register(env, s, b, freshId).0)
  {
  }

  lemma VerifyPreservesInvariant(s: Store, t: TokenText)
    requires Invariant(s)
    ensures Invariant(Verify(s, t).0)
  {
    var s' := Verify(s, t).0;
    assert forall i :: 0 <= i < |s| ==> s'[i].email == s[i].email && s'[i].id == s[i].id;
  }

  lemma StepPreservesInvariant(env: Env, s: Store, req: Request)
    requires Invariant(s)
    ensures Invariant(Step(env, s, req).0)
  {
    match req
    case RegisterRequest(b, freshId) => RegisterPreservesInvariant(env, s, b, freshId);
    case VerifyRequest(t) => VerifyPreservesInvariant(s, t);
    case LoginRequest(_, _) =>
  }

  /** E-mail uniqueness and assigned ids survive any sequence of register,
      verify and login calls handled one at a time. */
  lemma {:induction false} RunPreservesInvariant(env: Env, s: Store, reqs: seq<Request>)
    requires Invariant(s)
    ensures Invariant(Run(env, s, reqs))
    decreases |reqs|
  {
    if |reqs| > 0 {
      StepPreservesInvariant(env, s, reqs[0]);
      RunPreservesInvariant(env, Step(env, s, reqs[0]).0, reqs[1..]);
    }
  }

  /** Every store reached from the empty store satisfies the invariant. */
  lemma ReachableStoresHaveUniqueEmails(env: Env, reqs: seq<Request>)
    ensures UniqueEmails(Run(env, [], reqs))
    ensures UniqueIds(Run(env, [], reqs))
    ensures IdsAssigned(Run(env, [], reqs))
  {
    RunPreservesInvariant(env, [], reqs);
  }

  /** Login is read-only: a login request leaves the store as it was. */
  lemma LoginLeavesStore(env: Env, s: Store, b: UserLogin, now: int)
    ensures Step(env, s, LoginRequest(b, now)).0 == s
  {
  }

  /** Verifying twice is verifying once, in the store and in the answer. */
  lemma VerifyIdempotent(s: Store, t: TokenText)
    ensures Verify(Verify(s, t).0, t).0 == Verify(s, t).0
    ensures Verify(Verify(s, t).0, t).1 == Verify(s, t).1
  {
  }

  /** A token without a subject claim names no account: on a store whose
      accounts all have ids, verification reports "Account not found". */
  lemma VerifyWithoutSubject(s: Store, claims: seq<Claim>)
    requires IdsAssigned(s)
    requires forall i :: 0 <= i < |claims| ==> claims[i].claimType != SubjectClaim
    ensures Verify(s, Parsed(claims)) == (s, BadRequest(Message("Account not found")))
  {
  }

  /** Every account is confirmed from creation. */
  predicate AllConfirmed(s: Store) {
    forall i :: 0 <= i < |s| ==> s[i].isEmailConfirmed
  }

  lemma {:induction false} RunKeepsAllConfirmed(env: Env, s: Store, reqs: seq<Request>)
    requires AllConfirmed(s)
    ensures AllConfirmed(Run(env, s, reqs))
    decreases |reqs|
  {
    if |reqs| > 0 {
      var s' := Step(env, s, reqs[0]).0;
      assert AllConfirmed(s');
      RunKeepsAllConfirmed(env, s', reqs[1..]);
    }
  }

  /** Since registration already confirms, verification never changes a
      store reached from the empty one. */
  lemma VerifyChangesNothingOnReachableStores(env: Env, reqs: seq<Request>, t: TokenText)
    ensures Verify(Run(env, [], reqs), t).0 == Run(env, [], reqs)
  {
    var s := Run(env, [], reqs);
    RunKeepsAllConfirmed(env, [], reqs);
    if t.Parsed? && HasId(s, Subject(t.claims)) {
      var k := FindFirst(s, IdIs(Subject(t.claims))).value;
      assert s[k].(isEmailConfirmed := true) == s[k];
      assert s[k := s[k]] == s;
    }
  }

  /** Once an e-mail is registered, registering it again is refused and the
      store stays as it was. */
  lemma RegisterTwiceRefused(env: Env, s: Store, b: UserRegister, id1: string, b2: UserRegister, id2: string)
    requires ValidRegister(b) && ValidRegister(b2) && b2.email == b.email
    requires !HasId(s, Some(id1))
    ensures var s1 := Register(env, s, b, id1).0;
      Register(env, s1, b2, id2) == (s1, BadRequest(Message("Email " + b.email.value + " is taken")))
  {
    var s1 := Register(env, s, b, id1).0;
    if !EmailTaken(s, b.email.value) {
      assert s1[|s|].email == b.email.value;
    }
  }

  /** After a successful registration, logging in with the same e-mail and
      password returns a token whose subject is the new account's id and
      whose role claims are exactly ["user"]. */
  lemma RegisterThenLogin(env: Env, s: Store, b: UserRegister, freshId: string, now: int)
    requires ValidRegister(b) && !EmailTaken(s, b.email.value) && !HasId(s, Some(freshId))
    ensures var s1 := Register(env, s, b, freshId).0;
      var r := Login(env, s1, UserLogin(b.email, b.password), now);
      && r.Ok? && r.body.TokenBody?
      && Subject(r.body.token.claims) == Some(freshId)
      && Roles(r.body.token.claims) == ["user"]
      && r.body.token.expires == now + OneHour
  {
    var s1 := Register(env, s, b, freshId).0;
    var u := s1[|s|];
    var digest := PasswordHash(env.crypto, b.password.value);
    RegisterBodyGivesLoginBody(b);
    assert FindFirst(s1, Credentials(b.email.value, digest)) == Some(|s|) by {
      forall j | 0 <= j < |s|
        ensures !Matches(Credentials(b.email.value, digest), s1[j])
      {
        assert s1[j] == s[j];
      }
    }
    IssuedSubjectIsId(u);
    IssuedRolesAreRoles(u);
  }

  /** The token a login hands out, presented to the verify endpoint, names
      an existing account: verification succeeds. */
  lemma LoginTokenVerifies(env: Env, s: Store, b: UserLogin, now: int)
    requires Login(env, s, b, now).Ok?
    ensures var t := Login(env, s, b, now).body.token;
      Verify(s, Parsed(t.claims)).1 == Ok(Message("Email verified"))
  {
    var r := Login(env, s, b, now);
    var i :| && 0 <= i < |s|
             && s[i].email == b.email.value
             && s[i].password == PasswordHash(env.crypto, b.password.value)
             && s[i].id.Some?
             && r == Ok(TokenBody(IssueToken(s[i], env.jwt, now).value));
    IssuedSubjectIsId(s[i]);
    assert HasId(s, Subject(r.body.token.claims));
  }

  /** A worked run: Ann registers, Bob is refused the same address, Ann
      logs in with her password, and a login with a wrong password is
      unauthorized. The last step holds only when the two passwords' SHA-256
      digests differ, which the model cannot know of an arbitrary hash. */
  lemma AnnAndBob(env: Env, s: Store, id1: string, id2: string, now: int)
    requires !EmailTaken(s, "a@x.com") && !HasId(s, Some(id1))
    requires env.crypto.sha256(env.crypto.utf8("wrong12")) != env.crypto.sha256(env.crypto.utf8("secret1"))
    ensures Register(env, s, AnnBody(), id1).1 == Ok(Message("User account created"))
    ensures var s1 := Register(env, s, AnnBody(), id1).0;
      && Register(env, s1, BobBody(), id2) == (s1, BadRequest(Message("Email " + "a@x.com" + " is taken")))
      && Login(env, s1, UserLogin(Some("a@x.com"), Some("secret1")), now).Ok?
      && Login(env, s1, WrongLogin(), now) == Unauthorized(Text("Invalid Login credentials"))
  {
    AnnRegisters(env, s, id1);
    BobRefused(env, s, id1, id2);
    AnnLogsIn(env, s, id1, now);
    AnnWrongPassword(env, s, id1, now);
  }

  /** After Ann registers with "secret1", logging in as her with "wrong12" is
      answered with the single "Invalid Login credentials" response, provided
      the two passwords' digests differ. */
  lemma AnnWrongPassword(env: Env, s: Store, id1: string, now: int)
    requires !EmailTaken(s, "a@x.com") && !HasId(s, Some(id1))
    requires env.crypto.sha256(env.crypto.utf8("wrong12")) != env.crypto.sha256(env.crypto.utf8("secret1"))
    ensures var s1 := Register(env, s, AnnBody(), id1).0;
      Login(env, s1, WrongLogin(), now) == Unauthorized(Text("Invalid Login credentials"))
  {
    WrongLoginValid();
    NoAccountHasWrongPassword(env, s, id1);
    var s1 := Register(env, s, AnnBody(), id1).0;
    assert !CredentialsMatch(s1, WrongLogin().email.value, PasswordHash(env.crypto, WrongLogin().password.value));
  }

  /** No account of Ann's store pairs her address with the digest of "wrong12". */
  lemma NoAccountHasWrongPassword(env: Env, s: Store, id1: string)
    requires !EmailTaken(s, "a@x.com") && !HasId(s, Some(id1))
    requires env.crypto.sha256(env.crypto.utf8("wrong12")) != env.crypto.sha256(env.crypto.utf8("secret1"))
    ensures !CredentialsMatch(Register(env, s, AnnBody(), id1).0, "a@x.com", PasswordHash(env.crypto, "wrong12"))
  {
    var s1 := Register(env, s, AnnBody(), id1).0;
    AnnStore(env, s, id1);
    PasswordHashMatchesDigest(env.crypto, "wrong12", "secret1");
    var digest := PasswordHash(env.crypto, "wrong12");
    forall j | 0 <= j < |s1|
      ensures !(s1[j].email == "a@x.com" && s1[j].password == digest)
    {
      if j < |s| {
        assert s1[j] == s1[..|s|][j] == s[j];
      }
    }
  }

  /** The store after Ann's registration: the old accounts, then hers. */
  lemma AnnStore(env: Env, s: Store, id1: string)
    requires !EmailTaken(s, "a@x.com") && !HasId(s, Some(id1))
    ensures var s1 := Register(env, s, AnnBody(), id1).0;
      && |s1| == |s| + 1 && s1[..|s|] == s
      && s1[|s|].email == "a@x.com"
      && s1[|s|].password == PasswordHash(env.crypto, "secret1")
  {
    AnnBodyValid();
  }

  function WrongLogin(): UserLogin {
    UserLogin(Some("a@x.com"), Some("wrong12"))
  }

  lemma WrongLoginValid()
    ensures ValidLogin(WrongLogin())
  {
    Utf16LengthOfBmp("wrong12");
    assert !IsWhiteSpace("a@x.com"[0]);
    assert !IsWhiteSpace("wrong12"[0]);
  }

  lemma AnnRegisters(env: Env, s: Store, id1: string)
    requires !EmailTaken(s, "a@x.com") && !HasId(s, Some(id1))
    ensures Register(env, s, AnnBody(), id1).1 == Ok(Message("User account created"))
  {
    AnnBodyValid();
  }

  lemma BobRefused(env: Env, s: Store, id1: string, id2: string)
    requires !HasId(s, Some(id1))
    ensures var s1 := Register(env, s, AnnBody(), id1).0;
      Register(env, s1, BobBody(), id2) == (s1, BadRequest(Message("Email " + "a@x.com" + " is taken")))
  {
    AnnAndBobValid();
    RegisterTwiceRefused(env, s, AnnBody(), id1, BobBody(), id2);
  }

  lemma AnnLogsIn(env: Env, s: Store, id1: string, now: int)
    requires !EmailTaken(s, "a@x.com") && !HasId(s, Some(id1))
    ensures var s1 := Register(env, s, AnnBody(), id1).0;
      Login(env, s1, UserLogin(Some("a@x.com"), Some("secret1")), now).Ok?
  {
    AnnBodyValid();
    RegisterThenLogin(env, s, AnnBody(), id1, now);
  }

  function AnnBody(): UserRegister {
    UserRegister(Some("a@x.com"), Some("Ann"), Some("secret1"))
  }

  function BobBody(): UserRegister {
    UserRegister(Some("a@x.com"), Some("Bob"), Some("other12"))
  }

  lemma AnnAndBobValid()
    ensures ValidRegister(AnnBody()) && ValidRegister(BobBody())
  {
    AnnBodyValid();
    BobBodyValid();
  }

  lemma AnnBodyValid()
    ensures ValidRegister(AnnBody())
  {
    Utf16LengthOfBmp("Ann");
    Utf16LengthOfBmp("secret1");
    assert !IsWhiteSpace("Ann"[0]);
    assert !IsWhiteSpace("a@x.com"[0]);
    assert !IsWhiteSpace("secret1"[0]);
  }

  lemma BobBodyValid()
    ensures ValidRegister(BobBody())
  {
    Utf16LengthOfBmp("Bob");
    Utf16LengthOfBmp("other12");
    assert !IsWhiteSpace("Bob"[0]);
    assert !IsWhiteSpace("a@x.com"[0]);
    assert !IsWhiteSpace("other12"[0]);
  }
}
