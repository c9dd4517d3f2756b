/** The `Users` collection as an ordered sequence of accounts, with the three
    operations the account workflow uses: find the first match of a filter,
    insert one account, and update the first match of a filter. */
module UserStore {
  import opened Wrappers
  import opened Users

  type Store = seq<User>

  /** The filters the workflow passes to the store. */
  datatype Filter =
    | EmailIs(email: string)                  // x => x.Email == email
    | IdIs(id: Option<string>)                // x => x.Id == id (id may be null)
    | Credentials(email: string, digest: string) // x => x.Email == email && x.Password == digest

  predicate Matches(f: Filter, u: User) {
    match f
    case EmailIs(e) => u.email == e
    case IdIs(id) => u.id == id
    case Credentials(e, d) => u.email == e && u.password == d
  }

  /** The partial updates the workflow applies. */
  datatype Update = SetEmailConfirmed(confirmed: bool)

  function Apply(upd: Update, u: User): User {
    match upd
    case SetEmailConfirmed(b) => u.(isEmailConfirmed := b)
  }

  /** Position of the first account the filter matches (`FirstOrDefault`). */
  function FindFirst(s: Store, f: Filter): (r: Option<nat>)
    ensures r.None? <==> forall j :: 0 <= j < |s| ==> !Matches(f, s[j])
    ensures r.Some? ==> r.value < |s| && Matches(f, s[r.value])
    ensures r.Some? ==> forall j :: 0 <= j < r.value ==> !Matches(f, s[j])
  {
    if |s| == 0 then None
    else if Matches(f, s[0]) then Some(0)
    else
      match FindFirst(s[1..], f)
      case None => None
      case Some(k) => Some(k + 1)
  }

  /** `GetAsync(filter)`: the first matching account, or null. */
  function Get(s: Store, f: Filter): (r: Option<User>)
    ensures r.None? <==> forall j :: 0 <= j < |s| ==> !Matches(f, s[j])
    ensures r.Some? ==> r.value in s && Matches(f, r.value)
    ensures r.Some? ==> FindFirst(s, f).Some? && r.value == s[FindFirst(s, f).value]
  {
    match FindFirst(s, f)
    case None => None
    case Some(k) => Some(s[k])
  }

  /** Some stored account has this id. */
  predicate HasId(s: Store, id: Option<string>) {
    exists i :: 0 <= i < |s| && s[i].id == id
  }

  /** `CreateAsync`: appends the account. The driver gives an account that
      has no id the fresh id `freshId`. The collection's unique index on the
      id refuses an account whose id is already stored: the driver throws a
      duplicate-key error, modelled as `None`, and nothing is written. */
  function Insert(s: Store, u: User, freshId: string): (r: Option<Store>)
    ensures r.None? <==> HasId(s, Some(u.id.GetOr(freshId)))
    ensures r.Some? ==> |r.value| == |s| + 1 && r.value[..|s|] == s
    ensures r.Some? ==> r.value[|s|] == u.(id := r.value[|s|].id)
    ensures r.Some? && u.id.Some? ==> r.value[|s|].id == u.id
    ensures r.Some? && u.id.None? ==> r.value[|s|].id == Some(freshId)
  {
    var id := Some(u.id.GetOr(freshId));
    if HasId(s, id) then None else Some(s + [u.(id := id)])
  }

  /** `UpdateAsync(filter, update)`: applies the update to the first matching
      account and to no other. */
  function UpdateOne(s: Store, f: Filter, upd: Update): (s': Store)
    ensures |s'| == |s|
    ensures FindFirst(s, f).None? ==> s' == s
    ensures FindFirst(s, f).Some? ==>
      var k := FindFirst(s, f).value;
      && s'[k] == Apply(upd, s[k])
      && forall j :: 0 <= j < |s| && j != k ==> s'[j] == s[j]
  {
    match FindFirst(s, f)
    case None => s
    case Some(k) => s[k := Apply(upd, s[k])]
  }

  /** No two accounts share an e-mail address. */
  predicate UniqueEmails(s: Store) {
    forall i, j :: 0 <= i < j < |s| ==> s[i].email != s[j].email
  }

  /** Every stored account has received its id. */
  predicate IdsAssigned(s: Store) {
    forall i :: 0 <= i < |s| ==> s[i].id.Some?
  }

  /** No two accounts share an id: the collection's unique index on `_id`. */
  predicate UniqueIds(s: Store) {
    forall i, j :: 0 <= i < j < |s| ==> s[i].id != s[j].id
  }

  /** The filters the workflow uses single out at most one account of a
      store with unique e-mails and unique, assigned ids. On such a store
      "the first match" is "the match", whatever order the database returns
      documents in. */
  lemma FiltersMatchAtMostOne(s: Store, f: Filter, i: int, j: int)
    requires UniqueEmails(s) && UniqueIds(s) && IdsAssigned(s)
    requires 0 <= i < |s| && 0 <= j < |s|
    requires Matches(f, s[i]) && Matches(f, s[j])
    ensures i == j
  {
  }
}
