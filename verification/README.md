# Account workflow of the Library Management API, in Dafny

This project models the authentication controller of the Library Management
API. The controller has three endpoints:

- **register** stores a new account under an e-mail address nobody holds yet.
- **verify** reads the subject of a token and marks that account's e-mail as confirmed.
- **login** checks an e-mail and password against the stored digests and issues a token.

The user collection is an ordered sequence of `User` records (`UserStore.Store`).
A lookup returns the first matching account, as `FirstOrDefault` does. An
update touches only the first match, as `UpdateOne` does.

MongoDB fixes no document order without a sort, so "first" is a choice the
model makes. It stops mattering on the stores the workflow reaches. There,
e-mails are unique and ids are unique and assigned
(`Workflow.RunPreservesInvariant`). So each filter the workflow uses matches
at most one account (`UserStore.FiltersMatchAtMostOne`).

Ids are unique because the collection has a unique index on `_id`. An insert
whose id is already stored makes the driver throw a duplicate-key error.
`UserStore.Insert` models that as a refusal, and `Auth.Register` answers it
with `ServerError`, leaving the store unchanged.

Each endpoint is a pure function from a store and a request to a new store
and a response. A store is a value that is never changed in place. Login
returns only a response, because it never writes.

The model also covers the pure pieces the controller relies on:

- the data annotations on the two request bodies;
- the lower-case hex rendering of the password digest;
- the claim list placed in an issued token;
- the `User` record with its defaults, and its password-free `UserOut` projection.

Modules, leaf first:

| file | module | models |
|---|---|---|
| wrappers.dfy | `Wrappers` | `Option`, standing for a nullable reference |
| users.dfy | `Users` | `User`, its defaults, `UserOut` |
| validation.dfy | `Validation` | `UserRegister` and `UserLogin` with their `[Required]`/`[StringLength]` rules |
| hashing.dfy | `Hashing` | the hex loop of `ComputeSha256Hash`, its inverse, and the password hash |
| tokens.dfy | `Tokens` | the claim list and token of `IssueToken`, and reading a token's subject and roles |
| store.dfy | `UserStore` | first-match find, insert with id assignment, first-match update |
| auth.dfy | `Auth` | `Register`, `Verify`, `Login` |
| workflow.dfy | `Workflow` | sequences of requests and the invariants kept across them |

Collaborators that the model does not define are passed in as parameters.
`Auth.Env` carries:

- the UTF-8 encoder and the SHA-256 function, as function values. The digest
  type `Hashing.Digest32` is a 32-byte sequence, so a digest's length is a
  fact of its type and needs no axiom;
- the token issuer and audience.

The clock reading and the id that the store generates on insert are arguments
of the requests.

Points of the code's behaviour that are easy to miss:

- `[Required]` rejects null, and it also rejects an empty or white-space-only
  string (`char.IsWhiteSpace`).
- `[StringLength]` counts UTF-16 code units, so it is modelled with
  `Validation.Utf16Length`.
- `[StringLength(100)]` on the name admits exactly 100 characters, although
  its message says "less than 100".
- The register action itself does not validate its body. `[ApiController]`
  answers an invalid body with an automatic 400 before the action runs, and
  `Auth.Register` models that as the `ValidationProblem` response.
- An undecodable token makes `ReadJwtToken` throw. The controller does not
  catch it, so `Verify` answers `ServerError` rather than a dedicated
  malformed-token error.
- A token with no `sub` claim gives a null id. The filter `x.Id == null` would
  match an account that has no id. No stored account lacks one, because
  insertion always assigns an id (`UserStore.IdsAssigned`, kept by
  `Workflow.RunPreservesInvariant`). So such a token is answered
  "Account not found".
- Registration creates accounts that are already confirmed. Every store
  reachable from the empty one therefore has only confirmed accounts, and
  verification never changes such a store
  (`Workflow.VerifyChangesNothingOnReachableStores`).
- `Claim` refuses a null value. Issuing a token for an account without an id
  would throw, so `Login` answers `ServerError` there. By the invariant above
  this cannot happen on a reachable store.

## Model

| member | source | states |
|---|---|---|
| `Users.NewUser` | LibraryManagementAPI/Models/User/User.cs:9-21 | a freshly constructed user has no id, is not confirmed and has no roles; the initializer's three fields are as given |
| `Users.ToUserOut` | LibraryManagementAPI/Models/User/UserOut.cs:9-15 | the projection copies id, roles, e-mail and name unchanged |
| `Users.ProjectionSeesOnlyPublicFields` | LibraryManagementAPI/Models/User/UserOut.cs:9-25 | two accounts project equally iff they agree on id, name, e-mail and roles, so the projection has no other field |
| `Users.ProjectionHidesSecrets` | LibraryManagementAPI/Models/User/UserOut.cs:17-25 | changing the password digest or the confirmation flag does not change the projection: no digest leaks |
| `Validation.Utf16Length` | LibraryManagementAPI/Models/User/UserRegister.cs:11 | the length `[StringLength]` checks lies between the number of characters and twice that |
| `Validation.Utf16LengthOfChar` | LibraryManagementAPI/Models/User/UserRegister.cs:11 | one character counts one code unit, or two when it lies outside the Basic Multilingual Plane |
| `Validation.Utf16LengthAppend` | LibraryManagementAPI/Models/User/UserRegister.cs:11 | the length of a concatenation is the sum of the lengths; with the previous row this fixes the checked length of every string |
| `Validation.AstralPasswordLength` | LibraryManagementAPI/Models/User/UserRegister.cs:15 | three characters outside the Basic Multilingual Plane count as 6 and satisfy the password length rule |
| `Validation.Required` | LibraryManagementAPI/Models/User/UserRegister.cs:7 | `[Required]` holds iff the value is not null and not white space only; a value that passes is non-empty |
| `Validation.StringLength` | LibraryManagementAPI/Models/User/UserRegister.cs:15 | `[StringLength]` passes a null value; a present value passes iff its UTF-16 length lies in [`min`, `max`], both ends included, so a passing value also has at most `max` characters |
| `Validation.ValidRegister` | LibraryManagementAPI/Models/User/UserRegister.cs:7-16 | a valid register body has all three fields, a non-empty name of at most 100 characters and a password of at most 100 characters |
| `Validation.ValidLogin` | LibraryManagementAPI/Models/User/UserLogin.cs:7-12 | a valid login body has both fields and a password of at most 100 characters |
| `Validation.RegisterValidity` | LibraryManagementAPI/Models/User/UserRegister.cs:7-16 | a register body is invalid when the e-mail is missing, the name is missing or over 100 long, or the password is missing or outside [6, 100]; it is valid iff none of these hold |
| `Validation.LoginValidity` | LibraryManagementAPI/Models/User/UserLogin.cs:7-12 | a login body is invalid when the e-mail or password is missing or the password length is below 6 or above 100; it is valid iff none of these hold |
| `Validation.RegisterBodyGivesLoginBody` | LibraryManagementAPI/Models/User/UserLogin.cs:7-12 | the e-mail and password of a valid register body always form a valid login body |
| `Validation.NameLimitIsInclusive` | LibraryManagementAPI/Models/User/UserRegister.cs:10-12 | a 100-character name is accepted and a 101-character name rejected |
| `Hashing.HexDigit` | LibraryManagementAPI/Controllers/AuthController.cs:104 | each digit is one of `0-9a-f` |
| `Hashing.ByteHex` | LibraryManagementAPI/Controllers/AuthController.cs:104 | `ToString("x2")` gives exactly two lower-case hex characters |
| `Hashing.Hex` | LibraryManagementAPI/Controllers/AuthController.cs:101-107 | n bytes render to 2n characters, all in `0-9a-f` |
| `Hashing.UnhexHex` | LibraryManagementAPI/Controllers/AuthController.cs:101-107 | reading back a rendering yields the original bytes |
| `Hashing.HexUnhex` | LibraryManagementAPI/Controllers/AuthController.cs:101-107 | every string that reads back is the rendering of what it reads to |
| `Hashing.HexInjective` | LibraryManagementAPI/Controllers/AuthController.cs:101-107 | renderings are equal iff the byte sequences are equal |
| `Hashing.HexAppend` | LibraryManagementAPI/Controllers/AuthController.cs:102-105 | rendering one more byte appends that byte's two characters |
| `Hashing.RenderHex` | LibraryManagementAPI/Controllers/AuthController.cs:101-107 | the `StringBuilder` loop produces the same string as the reference rendering |
| `Hashing.PasswordHash` | LibraryManagementAPI/Controllers/AuthController.cs:95-109 | the stored digest is always 64 lower-case hex characters |
| `Hashing.PasswordHashMatchesDigest` | LibraryManagementAPI/Controllers/AuthController.cs:80 | two passwords have equal hex digests iff their SHA-256 digests are equal |
| `Tokens.RoleClaims` | LibraryManagementAPI/Controllers/AuthController.cs:132 | there is one role claim per role |
| `Tokens.IssueClaims` | LibraryManagementAPI/Controllers/AuthController.cs:119-132 | a claim list exists iff the account has an id, and then it has 4 + number-of-roles claims |
| `Tokens.IssueToken` | LibraryManagementAPI/Controllers/AuthController.cs:136-142 | the token carries the claim list built for the account, expires one hour after issuance and carries the configured issuer and audience; there is no token for an account without an id |
| `Tokens.Subject` | LibraryManagementAPI/Controllers/AuthController.cs:60 | a subject is found iff some claim has type `sub`, and it is the value of the first such claim |
| `Tokens.IssuedClaimLayout` | LibraryManagementAPI/Controllers/AuthController.cs:119-132 | the first four claims are LM_User_Id, name identifier, e-mail and sub, in that order, followed by one role claim per role in role order |
| `Tokens.IssuedSubjectIsId` | LibraryManagementAPI/Controllers/AuthController.cs:128 | the subject read from an issued claim list is the account's id |
| `Tokens.IssuedRolesAreRoles` | LibraryManagementAPI/Controllers/AuthController.cs:132 | the roles read from an issued claim list are exactly the account's roles |
| `UserStore.FindFirst` | LibraryManagementAPI/Services/MongoDBService.cs:23-26 | finds nothing iff no account matches; otherwise finds a matching position with no match before it |
| `UserStore.Get` | LibraryManagementAPI/Services/MongoDBService.cs:23-26 | returns null iff no account matches; otherwise returns the first matching account |
| `UserStore.Insert` | LibraryManagementAPI/Services/MongoDBService.cs:38-41 | refused iff the id the account would get is already stored; otherwise appends exactly one account and leaves the old ones in place, and an account without an id receives the fresh id |
| `UserStore.FiltersMatchAtMostOne` | LibraryManagementAPI/Services/MongoDBService.cs:23-26 | on a store with unique e-mails and unique, assigned ids, no filter the workflow uses matches two accounts |
| `UserStore.UpdateOne` | LibraryManagementAPI/Services/MongoDBService.cs:48-51 | updates only the first match and leaves every other account as it was; with no match the store is unchanged |
| `Auth.RegisteredUser` | LibraryManagementAPI/Controllers/AuthController.cs:38-45 | the new account has no id yet, the given e-mail and name, the hashed password, is confirmed and has the single role "user" |
| `Auth.Register` | LibraryManagementAPI/Controllers/AuthController.cs:30-51 | an invalid body or a taken e-mail leaves the store unchanged with the matching 400; a generated id that is already stored gives `ServerError` with the store unchanged; otherwise exactly one account is appended with the given e-mail and name, the hashed password, confirmed, roles ["user"] and the fresh id |
| `Auth.Verify` | LibraryManagementAPI/Controllers/AuthController.cs:54-73 | a malformed token is an uncaught error; a subject matching no id gives "Account not found" and leaves the store unchanged; otherwise only the first account with that id becomes confirmed |
| `Auth.Login` | LibraryManagementAPI/Controllers/AuthController.cs:76-92 | an invalid body gives "Invalid Request Body"; on a store whose accounts all have ids, login succeeds iff some account has the e-mail and the digest of the password, and otherwise gives the single "Invalid Login credentials"; a success carries that account's token |
| `Workflow.RegisterPreservesInvariant` | LibraryManagementAPI/Controllers/AuthController.cs:32-46 | register keeps e-mails unique and ids unique and assigned |
| `Workflow.VerifyPreservesInvariant` | LibraryManagementAPI/Controllers/AuthController.cs:67-70 | verify keeps e-mails unique and ids unique and assigned |
| `Workflow.StepPreservesInvariant` | LibraryManagementAPI/Controllers/AuthController.cs:30-92 | any single request keeps e-mails unique and ids unique and assigned |
| `Workflow.RunPreservesInvariant` | LibraryManagementAPI/Controllers/AuthController.cs:30-92 | any sequence of requests handled one at a time keeps e-mails unique and ids unique and assigned |
| `Workflow.ReachableStoresHaveUniqueEmails` | LibraryManagementAPI/Controllers/AuthController.cs:32-46 | every store reached from the empty store has unique e-mails and unique, assigned ids |
| `Workflow.LoginLeavesStore` | LibraryManagementAPI/Controllers/AuthController.cs:80-89 | a login request never changes the store |
| `Workflow.VerifyIdempotent` | LibraryManagementAPI/Controllers/AuthController.cs:67-72 | verifying twice gives the same store and response as verifying once |
| `Workflow.VerifyWithoutSubject` | LibraryManagementAPI/Controllers/AuthController.cs:60-65 | a token with no `sub` claim gives "Account not found" on a store whose accounts all have ids |
| `Workflow.RunKeepsAllConfirmed` | LibraryManagementAPI/Controllers/AuthController.cs:43 | if every account is confirmed, every account is still confirmed after any sequence of requests |
| `Workflow.VerifyChangesNothingOnReachableStores` | LibraryManagementAPI/Controllers/AuthController.cs:67-70 | on a store reached from the empty one, verification changes nothing |
| `Workflow.RegisterTwiceRefused` | LibraryManagementAPI/Controllers/AuthController.cs:32-35 | after a registration whose generated id is not already stored, registering the same e-mail again is refused with "Email … is taken" and the store stays unchanged |
| `Workflow.RegisterThenLogin` | LibraryManagementAPI/Controllers/AuthController.cs:38-46 | after a successful registration, logging in with the same e-mail and password gives a token whose subject is the new id, whose roles are ["user"] and which expires in one hour |
| `Workflow.LoginTokenVerifies` | LibraryManagementAPI/Controllers/AuthController.cs:87 | the token a login issues, given to verify, names an existing account, so verification succeeds |
| `Workflow.AnnAndBob` | LibraryManagementAPI/Controllers/AuthController.cs:30-92 | a worked run: Ann registers, Bob is refused `a@x.com`, Ann logs in with "secret1", and a login with "wrong12" gets the 401 "Invalid Login credentials", provided the two passwords' SHA-256 digests differ |
| `Workflow.AnnWrongPassword` | LibraryManagementAPI/Controllers/AuthController.cs:80-85 | after Ann registers, a login with her address and a wrong password is answered "Invalid Login credentials"; this rests on the two passwords' digests differing |

## Left out

- SHA-256 and UTF-8 encoding are function values in `Hashing.Crypto` and are not defined. Only the 32-byte length of a digest is assumed, through its type.
- JWT signing, serialisation and parsing are left out. A token is the record of its issuer, audience, claim list and expiry. A decoded token in the verify endpoint is its payload claim list.
- The serialised payload also holds `iss`, `aud` and `exp` claims. `Tokens.Jwt` keeps these as separate fields, and `Jwt.claims` holds only the claims the controller builds.
- `Tokens.IssueToken` represents time as an integer number of seconds supplied by the caller. `DateTime.Now`, its time zone and tick resolution are not modelled.
- Configuration (`Jwt:*`, `Mail:*`) is out of scope, apart from the issuer and audience passed in `Auth.Env`.
- The MongoDB driver is replaced by a sequence of accounts. The id it generates is the `freshId` argument of an insert.
- The driver would reject a `sub` value that is not 24 hexadecimal digits when serialising the filter. This is not modelled: ids are opaque strings.
- Because ids are opaque strings, id comparison is exact. `ObjectId.Parse` also accepts upper-case hex, so in the source an upper-case `sub` finds the account, while in the model it does not.
- Registrations that run concurrently are not modelled. With them, the check-then-insert in register can admit duplicate e-mails. All invariants here are for requests handled one at a time.
- `SendEmail` and `SendVerificationEmail` do SMTP I/O and HTML templating, and are not modelled. Their only call site is commented out.
- ASP.NET routing, model binding and the shapes of the response objects are left out. Responses are `Auth.Response` values.
- `Auth.Login` models the action's own `ModelState.IsValid` branch. Under `[ApiController]`, an invalid body is already turned away by the automatic 400 before the action runs. Both paths answer 400 without reading the store.
- `Auth.Login` states "succeeds iff credentials match" only for stores whose accounts all have ids. Issuing a token for an account with no id throws, so the guarantee is weaker on other stores. `Workflow.RunPreservesInvariant` shows every reachable store meets this condition.
- `Validation.IsWhiteSpace` lists the characters `char.IsWhiteSpace` accepts. Lone UTF-16 surrogates cannot occur in a Dafny string, so they are not modelled.
- `UserOut(User)` assigns `Roles = user.Roles`, so the projection and the account share one list. `Users.ToUserOut` copies a value, so this aliasing is not modelled. No code in the controller changes either list after the projection, so nothing here depends on it.
- There is no dedicated malformed-token response: the parse exception escapes the controller, and `Auth.Verify` answers `ServerError`.
