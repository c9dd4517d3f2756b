/** The account record stored in the `Users` collection and its
    password-free projection returned to clients. */
module Users {
  import opened Wrappers

  /** A stored account. `id` is absent until the store assigns one on insert;
      `password` holds the hex digest of the password, never the plaintext. */
  datatype User = User(
    id: Option<string>,
    email: string,
    name: string,
    password: string,
    isEmailConfirmed: bool,
    roles: seq<string>)

  /** The object initializer `new User { Email = …, Name = …, Password = … }`:
      the three given fields are set and every other property keeps its
      declared default. */
  function NewUser(email: string, name: string, password: string): (u: User)
    ensures u.email == email && u.name == name && u.password == password
    ensures u.id == None
    ensures !u.isEmailConfirmed
    ensures u.roles == []
  {
    User(None, email, name, password, false, [])
  }

  /** What a client may see of an account: no digest, no confirmation flag. */
  datatype UserOut = UserOut(id: Option<string>, name: string, email: string, roles: seq<string>)

  /** The `UserOut(User)` constructor. */
  function ToUserOut(u: User): (o: UserOut)
    ensures o.id == u.id
    ensures o.roles == u.roles
    ensures o.email == u.email && o.name == u.name
  {
    UserOut(u.id, u.name, u.email, u.roles)
  }

  /** Two accounts have the same projection exactly when they agree on every
      public field; in particular the projection is blind to the password
      digest and to the confirmation flag. */
  lemma ProjectionSeesOnlyPublicFields(u: User, v: User)
    ensures ToUserOut(u) == ToUserOut(v) <==>
      (u.id == v.id && u.name == v.name && u.email == v.email && u.roles == v.roles)
  {
  }

  /** No digest leaks: changing the stored password or the confirmation flag
      does not change what the projection shows. */
  lemma ProjectionHidesSecrets(u: User, digest: string, confirmed: bool)
    ensures ToUserOut(u.(password := digest, isEmailConfirmed := confirmed)) == ToUserOut(u)
  {
  }
}
