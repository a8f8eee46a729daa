/**
 * The `User` collection: records with a required username and email, an
 * optional password and optional reset-token fields, and a unique index on
 * `email`. The store assigns each new record a fresh identifier (the datastore's
 * object id, abstracted as a counter).
 */
module Users {
  import opened Wrappers

  type UserId = nat

  datatype User = User(
    id: UserId,
    username: string,
    email: string,
    password: Option<string>,         // a bcrypt hash, or the federated sentinel
    resetToken: Option<string>,
    resetTokenExpiry: Option<nat>)    // milliseconds since the epoch

  datatype UserStore = UserStore(users: seq<User>, nextId: UserId)

  /** Why the datastore refuses to save a record. */
  datatype StoreError =
    | MissingRequired   // a `required` string is empty or absent
    | DuplicateKey      // the unique index on `email` already holds the value

  /** The schema's `required` strings are non-empty. */
  predicate WellFormed(u: User) {
    |u.username| > 0 && |u.email| > 0
  }

  /** What the schema and its index guarantee of every stored collection. */
  predicate Valid(s: UserStore) {
    && (forall i :: 0 <= i < |s.users| ==> WellFormed(s.users[i]) && s.users[i].id < s.nextId)
    && (forall i, j :: 0 <= i < j < |s.users| ==>
          s.users[i].email != s.users[j].email && s.users[i].id != s.users[j].id)
  }

  /** `findOne(filter)`: the position of the first record satisfying `p`. */
  function FindFirst(users: seq<User>, p: User -> bool): (r: Option<nat>)
    ensures r.Some? ==> r.value < |users| && p(users[r.value])
    ensures r.Some? ==> forall k :: 0 <= k < r.value ==> !p(users[k])
    ensures r.None? <==> forall k :: 0 <= k < |users| ==> !p(users[k])
  {
    if |users| == 0 then None
    else if p(users[0]) then Some(0)
    else match FindFirst(users[1..], p)
      case None => None
      case Some(k) => Some(k + 1)
  }

  /** `User.findOne({ email })`. */
  function FindByEmail(s: UserStore, email: string): Option<nat> {
    FindFirst(s.users, (u: User) => u.email == email)
  }

  /** `User.findById(id)`. */
  function FindById(s: UserStore, id: UserId): Option<nat> {
    FindFirst(s.users, (u: User) => u.id == id)
  }

  /** In a valid store, a user found by email is the only one with that email. */
  lemma FindByEmailUnique(s: UserStore, email: string, i: nat)
    requires Valid(s)
    requires i < |s.users| && s.users[i].email == email
    ensures FindByEmail(s, email) == Some(i)
  {
  }

  /** In a valid store, a user found by id is the only one with that id. */
  lemma FindByIdUnique(s: UserStore, id: UserId, i: nat)
    requires Valid(s)
    requires i < |s.users| && s.users[i].id == id
    ensures FindById(s, id) == Some(i)
  {
  }

  datatype Created = Created(store: UserStore, id: UserId) | Rejected(error: StoreError)

  /** `new User({...}).save()` / `User.create({...})`: validation, then the unique email index. */
  function Create(s: UserStore, username: string, email: string, password: Option<string>): (r: Created)
    ensures r.Rejected? <==> |username| == 0 || |email| == 0 || FindByEmail(s, email).Some?
    ensures r.Rejected? && |username| > 0 && |email| > 0 ==> r.error == DuplicateKey
    ensures r.Created? ==> r.id == s.nextId && r.store.nextId > r.id
    ensures r.Created? ==> r.store.users == s.users + [User(r.id, username, email, password, None, None)]
    ensures r.Created? && Valid(s) ==> Valid(r.store)
  {
    if |username| == 0 || |email| == 0 then Rejected(MissingRequired)
    else if FindByEmail(s, email).Some? then Rejected(DuplicateKey)
    else
      var u := User(s.nextId, username, email, password, None, None);
      var s' := UserStore(s.users + [u], s.nextId + 1);
      assert forall k :: 0 <= k < |s.users| ==> s.users[k].email != email;
      Created(s', s.nextId)
  }

  /** Two records for the same account: `save()` on a loaded document never changes these fields. */
  predicate SameAccount(u: User, v: User) {
    u.id == v.id && u.username == v.username && u.email == v.email
  }

  /** `user.save()` after changing a loaded document's password or reset fields. */
  function Replace(s: UserStore, i: nat, u: User): (r: UserStore)
    requires i < |s.users| && SameAccount(s.users[i], u)
    ensures |r.users| == |s.users| && r.nextId == s.nextId
    ensures r.users[i] == u
    ensures forall k :: 0 <= k < |s.users| && k != i ==> r.users[k] == s.users[k]
    ensures Valid(s) ==> Valid(r)
  {
    UserStore(s.users[i := u], s.nextId)
  }

  /** `r` is `s` with only record `i` changed, and only in the fields `Replace` may change. */
  predicate OnlyChanged(s: UserStore, r: UserStore, i: nat) {
    && |r.users| == |s.users| && r.nextId == s.nextId && i < |s.users|
    && SameAccount(s.users[i], r.users[i])
    && forall k :: 0 <= k < |s.users| && k != i ==> r.users[k] == s.users[k]
  }
}
