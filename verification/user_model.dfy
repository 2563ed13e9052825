/**
  The in-memory user store of `UserModel`: lookups that hide the password,
  creation with id = size + 1, merge-style update, deletion, the
  credentials check and the e-mail existence test.
 */
module UserStore {
  import opened Common
  import opened Strings

  /** A user record's fields. `password` is absent only in the copies the
      store hands out; `isActive` is absent on users the store did not seed. */
  datatype UserFields = UserFields(
    name: string,
    email: string,
    password: Option<string>,
    phone: Option<string>,
    address: Option<string>,
    role: Option<string>,
    isActive: Option<bool>)

  datatype User = User(id: nat, fields: UserFields, createdAt: nat, updatedAt: nat)

  type Users = seq<User>

  /** The two users the store starts with, stamped at `t`. */
  function Seed(john: Stamps, jane: Stamps): (s: Users)
    ensures |s| == 2 && s[0].id == 1 && s[1].id == 2
    ensures forall u :: u in s ==> u.fields.isActive == Some(true) && u.fields.password == Some("password123")
  {
    [ User(1, UserFields("John Doe", "john@example.com", Some("password123"), Some("+1234567890"),
                         Some("123 Main St, City"), Some("user"), Some(true)), john.created, john.updated),
      User(2, UserFields("Jane Smith", "jane@example.com", Some("password123"), Some("+1234567891"),
                         Some("456 Oak Ave, Town"), Some("user"), Some(true)), jane.created, jane.updated) ]
  }

  /** `{ ...user, password: undefined }`. */
  function WithoutPassword(u: User): (r: User)
    ensures r.fields.password.None?
    ensures r.id == u.id && r.createdAt == u.createdAt && r.updatedAt == u.updatedAt
    ensures r.fields.(password := u.fields.password) == u.fields
  {
    u.(fields := u.fields.(password := None))
  }

  /** `findAll`: every user, in store order, with the password removed. */
  function FindAll(users: Users): (r: Users)
    ensures |r| == |users|
    ensures forall i :: 0 <= i < |r| ==> r[i].fields.password.None?
    ensures forall i :: 0 <= i < |r| ==> r[i].id == users[i].id && r[i].fields.email == users[i].fields.email
    ensures forall i :: 0 <= i < |r| ==>
      r[i].(fields := r[i].fields.(password := users[i].fields.password)) == users[i]
  {
    seq(|users|, i requires 0 <= i < |users| => WithoutPassword(users[i]))
  }

  /** `u.id === parseInt(id)`: an unparsable id matches nobody. */
  predicate IdMatches(u: User, id: IdArg)
  {
    id.IdNum? && u.id == id.n
  }

  /** `findById`: the first user with that id, password removed. */
  function FindById(users: Users, id: IdArg): (r: Option<User>)
    ensures r.None? <==> forall i :: 0 <= i < |users| ==> !IdMatches(users[i], id)
    ensures r.Some? ==> r.value.fields.password.None? && IdMatches(r.value, id)
    ensures r.Some? ==> exists k :: 0 <= k < |users| && WithoutPassword(users[k]) == r.value
  {
    match Find(users, u => IdMatches(u, id))
    case None => None
    case Some(u) => Some(WithoutPassword(u))
  }

  /** `findByEmail`: the first user with exactly that e-mail, password
      removed. */
  function FindByEmail(users: Users, email: string): (r: Option<User>)
    ensures r.None? <==> forall i :: 0 <= i < |users| ==> users[i].fields.email != email
    ensures r.Some? ==> r.value.fields.password.None? && r.value.fields.email == email
    ensures r.Some? ==> exists k :: FirstUserWithEmail(users, email, k) && r.value == WithoutPassword(users[k])
  {
    match Find(users, (u: User) => u.fields.email == email)
    case None => None
    case Some(u) => Some(WithoutPassword(u))
  }

  /** `k` is the position of the first user with exactly that e-mail. */
  predicate FirstUserWithEmail(users: Users, email: string, k: int)
  {
    0 <= k < |users| && users[k].fields.email == email && forall i :: 0 <= i < k ==> users[i].fields.email != email
  }

  /** `emailExists`. */
  predicate EmailExists(users: Users, email: string)
  {
    exists i :: 0 <= i < |users| && users[i].fields.email == email
  }

  /** `findByEmail` finds a user exactly when `emailExists` holds. */
  lemma FindByEmailIffExists(users: Users, email: string)
    ensures FindByEmail(users, email).Some? <==> EmailExists(users, email)
  {
  }

  /** `create`: appends one record with id = size + 1, carrying exactly the
      given fields, and returns it without its password. */
  function Create(users: Users, data: UserFields, now: nat): (r: (User, Users))
    ensures |r.1| == |users| + 1 && r.1[..|users|] == users
    ensures r.1[|users|] == User(|users| + 1, data, now, now)
    ensures r.0 == WithoutPassword(r.1[|users|])
  {
    var u := User(|users| + 1, data, now, now);
    assert (users + [u])[..|users|] == users;
    (WithoutPassword(u), users + [u])
  }

  /** `k` is the position of the first user whose id matches `id`. */
  predicate FirstUserWithId(users: Users, id: IdArg, k: int)
  {
    0 <= k < |users| && IdMatches(users[k], id) && forall i :: 0 <= i < k ==> !IdMatches(users[i], id)
  }

  /** `users'` is `users` with the record at `k` (the first with that id)
      merged with `p` and re-stamped, and `u` is that record without its
      password. */
  predicate UpdatedUserAt(users: Users, id: IdArg, p: UserPatch, now: nat, k: int, u: User, users': Users)
  {
    FirstUserWithId(users, id, k)
    && users' == users[k := users[k].(fields := MergeUser(users[k].fields, p), updatedAt := now)]
    && u == WithoutPassword(users'[k])
  }

  /** The partial update `updateById` merges in. */
  datatype UserPatch = UserPatch(name: Option<string>, email: Option<string>)

  const EmptyUserPatch := UserPatch(None, None)

  function MergeUser(f: UserFields, p: UserPatch): UserFields
  {
    f.(name := if p.name.Some? then p.name.value else f.name,
       email := if p.email.Some? then p.email.value else f.email)
  }

  /** `updateById`: null and no change for an unknown id; otherwise the
      first matching record is merged and re-stamped, no other record
      changes, and the result is the new record without its password. */
  function UpdateById(users: Users, id: IdArg, p: UserPatch, now: nat): (r: (Option<User>, Users))
    ensures r.0.None? <==> forall i :: 0 <= i < |users| ==> !IdMatches(users[i], id)
    ensures r.0.None? ==> r.1 == users
    ensures r.0.Some? ==> exists k :: UpdatedUserAt(users, id, p, now, k, r.0.value, r.1)
  {
    var k := FirstIndex(users, u => IdMatches(u, id));
    if k == -1 then (None, users)
    else
      var u := users[k].(fields := MergeUser(users[k].fields, p), updatedAt := now);
      assert UpdatedUserAt(users, id, p, now, k, WithoutPassword(u), users[k := u]);
      (Some(WithoutPassword(u)), users[k := u])
  }

  /** `deleteById`: false and no change for an unknown id; otherwise true
      and exactly the first matching record is removed. */
  function DeleteById(users: Users, id: IdArg): (r: (bool, Users))
    ensures r.0 <==> exists i :: 0 <= i < |users| && IdMatches(users[i], id)
    ensures !r.0 ==> r.1 == users
    ensures r.0 ==> exists k :: FirstUserWithId(users, id, k) && r.1 == users[..k] + users[k + 1..]
  {
    var k := FirstIndex(users, u => IdMatches(u, id));
    if k == -1 then (false, users) else (true, users[..k] + users[k + 1..])
  }

  /** `u.email === email && u.isActive`: only an explicit `true` is truthy. */
  predicate ActiveWithEmail(u: User, email: string)
  {
    u.fields.email == email && u.fields.isActive == Some(true)
  }

  /** `k` is the position of the first active user with that e-mail. */
  predicate FirstActiveWithEmail(users: Users, email: string, k: int)
  {
    0 <= k < |users| && ActiveWithEmail(users[k], email) && forall i :: 0 <= i < k ==> !ActiveWithEmail(users[i], email)
  }

  /** `validateCredentials`: the first active user with that e-mail, without
      its password, provided the passwords are equal; null otherwise. */
  function ValidateCredentials(users: Users, email: string, password: string): (r: Option<User>)
    ensures r.Some? <==> exists k :: FirstActiveWithEmail(users, email, k) && users[k].fields.password == Some(password)
    ensures r.Some? ==> exists k :: FirstActiveWithEmail(users, email, k) && r.value == WithoutPassword(users[k])
  {
    match Find(users, u => ActiveWithEmail(u, email))
    case None => None
    case Some(u) => if u.fields.password == Some(password) then Some(WithoutPassword(u)) else None
  }

  /** No two stored users share an e-mail. */
  ghost predicate EmailsUnique(users: Users)
  {
    forall i, j :: 0 <= i < j < |users| ==> users[i].fields.email != users[j].fields.email
  }

  /** No two stored users share an id. */
  ghost predicate IdsUnique(users: Users)
  {
    forall i, j :: 0 <= i < j < |users| ==> users[i].id != users[j].id
  }

  /** With ids unique, every user is the first with its own id. */
  lemma UniqueIdIsFirst(users: Users, k: nat)
    requires IdsUnique(users) && k < |users|
    ensures FirstUserWithId(users, IdNum(users[k].id), k)
  {
  }

  /** `findById` returns the first user with the id. */
  lemma FindByIdAtFirst(users: Users, id: IdArg, k: nat)
    requires FirstUserWithId(users, id, k)
    ensures FindById(users, id) == Some(WithoutPassword(users[k]))
  {
    var f := Find(users, u => IdMatches(u, id));
    var k' :| 0 <= k' < |users| && users[k'] == f.value && IdMatches(users[k'], id) && forall i :: 0 <= i < k' ==> !IdMatches(users[i], id);
    assert k' == k by {
      assert !(k' < k) && !(k < k');
    }
  }

  /** Credentials are accepted only for an active user with that e-mail, so
      a record without `isActive` never authenticates. */
  lemma ValidateCredentialsNeedsActive(users: Users, email: string, password: string)
    requires forall i :: 0 <= i < |users| && users[i].fields.email == email ==> users[i].fields.isActive != Some(true)
    ensures ValidateCredentials(users, email, password).None?
  {
  }
}
