/**
  The user-account endpoints: login, registration, and reading and
  updating one's own profile, over the user store.
 */
module AuthController {
  import opened Common
  import opened Strings
  import SharedApi
  import opened Token
  import AuthMiddleware
  import opened UserStore

  /** What an endpoint answers. A success carries the user (never its
      password) and, for login and registration, a fresh token. */
  datatype AuthReply =
    | Unauthorized(error: string)
    | Conflict(error: string)
    | NotFound(error: string)
    | Success(user: User, token: Option<string>, message: Option<string>)

  /** The token issued to user `id` at `now`. */
  function TokenFor(id: nat, now: nat): string
  {
    GenerateUserToken(NatToString(id), now)
  }

  /** A token issued for a user reads back, through the middleware, as an
      id that `parseInt` turns into the user's own id. */
  lemma TokenForIdentifies(id: nat, now: nat)
    ensures AuthMiddleware.GetUserIdFromToken(Some(BEARER + TokenFor(id, now))) == Some(NatToString(id))
    ensures ParseId(NatToString(id)) == IdNum(id)
  {
    AuthMiddleware.UserTokenIdentity(NatToString(id), now);
    ParseIdOfNatToString(id);
  }

  /** `loginUser`: Unauthorized unless the credentials check finds a user;
      otherwise that user and a token built from its id. */
  function LoginUser(users: Users, email: string, password: string, now: nat): (r: AuthReply)
    ensures r.Unauthorized? || r.Success?
    ensures r.Unauthorized? <==> ValidateCredentials(users, email, password).None?
    ensures r.Success? ==> r.user.fields.password.None? && r.user.fields.email == email
    ensures r.Success? ==> r.token == Some(TokenFor(r.user.id, now))
  {
    match ValidateCredentials(users, email, password)
    case None => Unauthorized("Invalid email or password")
    case Some(u) => Success(u, Some(TokenFor(u.id, now)), Some("Login successful"))
  }

  /** `getUserProfile`: NotFound when no user has the id the token carries;
      otherwise that user. */
  function GetUserProfile(users: Users, userId: string): (r: AuthReply)
    ensures r.NotFound? || r.Success?
    ensures r.NotFound? <==> forall i :: 0 <= i < |users| ==> !IdMatches(users[i], ParseId(userId))
    ensures r.Success? ==> r.user.fields.password.None? && IdMatches(r.user, ParseId(userId)) && r.token.None?
  {
    match FindById(users, ParseId(userId))
    case None => NotFound("User not found")
    case Some(u) => Success(u, None, None)
  }

  /** With ids unique, the token a login issues leads the profile endpoint
      back to the very user who logged in. */
  lemma LoginThenProfile(users: Users, email: string, password: string, now: nat)
    requires IdsUnique(users)
    requires LoginUser(users, email, password, now).Success?
    ensures var r := LoginUser(users, email, password, now);
            var userId := AuthMiddleware.GetUserIdFromToken(Some(BEARER + r.token.value));
            userId.Some? && GetUserProfile(users, userId.value) == Success(r.user, None, None)
  {
    var r := LoginUser(users, email, password, now);
    var k :| FirstActiveWithEmail(users, email, k) && r.user == WithoutPassword(users[k]);
    TokenForIdentifies(r.user.id, now);
    UniqueIdIsFirst(users, k);
    FindByIdAtFirst(users, IdNum(users[k].id), k);
  }

  /** The record `registerUser` creates: name, e-mail and password only;
      no `isActive`. */
  function NewUserFields(name: string, email: string, password: string): (f: UserFields)
    ensures f.name == name && f.email == email && f.password == Some(password)
    ensures f.isActive.None?
  {
    UserFields(name, email, Some(password), None, None, None, None)
  }

  /** `registerUser`: Conflict, creating nothing, when the e-mail exists;
      otherwise exactly one user is appended and returned with a token. */
  function RegisterUser(users: Users, name: string, email: string, password: string, now: nat): (r: (AuthReply, Users))
    ensures r.0.Conflict? || r.0.Success?
    ensures r.0.Conflict? <==> EmailExists(users, email)
    ensures r.0.Conflict? ==> r.1 == users
    ensures r.0.Success? ==> |r.1| == |users| + 1 && r.1[..|users|] == users
    ensures r.0.Success? ==> r.1[|users|] == User(|users| + 1, NewUserFields(name, email, password), now, now)
    ensures r.0.Success? ==> r.0.user == WithoutPassword(r.1[|users|]) && r.0.token == Some(TokenFor(|users| + 1, now))
  {
    if EmailExists(users, email) then (Conflict("User with this email already exists"), users)
    else
      var (u, users') := Create(users, NewUserFields(name, email, password), now);
      (Success(u, Some(TokenFor(u.id, now)), Some("Registration successful")), users')
  }

  /** Registration never lets two users share an e-mail. */
  lemma RegisterKeepsEmailsUnique(users: Users, name: string, email: string, password: string, now: nat)
    requires EmailsUnique(users)
    ensures EmailsUnique(RegisterUser(users, name, email, password, now).1)
  {
    var (r, users') := RegisterUser(users, name, email, password, now);
    if r.Success? {
      forall i, j | 0 <= i < j < |users'| ensures users'[i].fields.email != users'[j].fields.email {
        if j == |users| {
          assert users'[i] == users[i];
        } else {
          assert users'[i] == users[i] && users'[j] == users[j];
        }
      }
    }
  }

  /** A user who has just registered cannot log in: the credentials check
      wants `isActive`, which registration never sets. */
  lemma RegisteredUserCannotLogIn(users: Users, name: string, email: string, password: string, now: nat, later: nat)
    requires RegisterUser(users, name, email, password, now).0.Success?
    ensures LoginUser(RegisterUser(users, name, email, password, now).1, email, password, later).Unauthorized?
  {
    var users' := RegisterUser(users, name, email, password, now).1;
    assert forall i :: 0 <= i < |users| ==> users'[i] == users[i] by {
      assert users'[..|users|] == users;
    }
    ValidateCredentialsNeedsActive(users', email, password);
  }

  /** The updates `updateUserProfile` builds: a name only when given and
      non-empty, trimmed; an e-mail likewise, lowered and trimmed. */
  function ProfilePatch(name: Option<string>, email: Option<string>): (p: UserPatch)
    ensures p.name.Some? <==> SharedApi.IsTruthy(name)
    ensures p.email.Some? <==> SharedApi.IsTruthy(email)
    ensures p.name.Some? ==> p.name.value == Trim(name.value)
    ensures p.email.Some? ==> p.email.value == Trim(Lower(email.value))
  {
    UserPatch(if SharedApi.IsTruthy(name) then Some(Trim(name.value)) else None,
              if SharedApi.IsTruthy(email) then Some(Trim(Lower(email.value))) else None)
  }

  /** The conflict test of `updateUserProfile`, applied to the e-mail
      exactly as sent: it differs from the caller's current one (or the
      caller is unknown) and some user already has it. */
  predicate EmailTakenAsSent(users: Users, userId: string, email: Option<string>)
  {
    && SharedApi.IsTruthy(email)
    && (match FindById(users, ParseId(userId)) case None => true case Some(u) => email.value != u.fields.email)
    && EmailExists(users, email.value)
  }

  /** `updateUserProfile`: Conflict when the e-mail as sent is taken;
      otherwise NotFound for an unknown caller, and else only the caller's
      record changes, by the profile patch. */
  function UpdateUserProfile(users: Users, userId: string, name: Option<string>, email: Option<string>, now: nat): (r: (AuthReply, Users))
    ensures r.0.Conflict? || r.0.NotFound? || r.0.Success?
    ensures r.0.Conflict? <==> EmailTakenAsSent(users, userId, email)
    ensures r.0.NotFound? <==> !EmailTakenAsSent(users, userId, email) && forall i :: 0 <= i < |users| ==> !IdMatches(users[i], ParseId(userId))
    ensures !r.0.Success? ==> r.1 == users
    ensures r.0.Success? ==> exists k :: UpdatedUserAt(users, ParseId(userId), ProfilePatch(name, email), now, k, r.0.user, r.1)
  {
    if EmailTakenAsSent(users, userId, email) then (Conflict("Email already in use"), users)
    else
      match UpdateById(users, ParseId(userId), ProfilePatch(name, email), now)
      case (None, _) => (NotFound("User not found"), users)
      case (Some(u), users') => (Success(u, None, Some("Profile updated successfully")), users')
  }

  /** The conflict test looks at the e-mail as sent, but the store receives
      it lowered and trimmed: a caller who sends another user's address in
      different letter case, such as "John@example.com" against a stored
      "john@example.com", passes the test and ends up sharing that
      address. */
  lemma UpdateUserProfileCanDuplicateEmail(users: Users, userId: string, e: string, k: nat, j: nat, now: nat)
    requires FirstUserWithId(users, ParseId(userId), k)
    requires j < |users| && j != k
    requires |e| > 0 && e != users[k].fields.email && !EmailExists(users, e)
    requires users[j].fields.email == Trim(Lower(e))
    ensures var r := UpdateUserProfile(users, userId, None, Some(e), now);
            r.0.Success? && !EmailsUnique(r.1)
  {
    var r := UpdateUserProfile(users, userId, None, Some(e), now);
    var k' :| UpdatedUserAt(users, ParseId(userId), ProfilePatch(None, Some(e)), now, k', r.0.user, r.1);
    assert k' == k;
    assert r.1[k].fields.email == r.1[j].fields.email;
  }

  /** The conflict test applied to the e-mail as it will be stored. */
  predicate EmailTakenAsStored(users: Users, userId: string, email: Option<string>)
  {
    && SharedApi.IsTruthy(email)
    && var stored := Trim(Lower(email.value));
       (match FindById(users, ParseId(userId)) case None => true case Some(u) => stored != u.fields.email)
       && EmailExists(users, stored)
  }

  /** `updateUserProfile` with the conflict test on the stored e-mail. */
  function UpdateUserProfileChecked(users: Users, userId: string, name: Option<string>, email: Option<string>, now: nat): (r: (AuthReply, Users))
    ensures r.0.Conflict? || r.0.NotFound? || r.0.Success?
    ensures r.0.Conflict? <==> EmailTakenAsStored(users, userId, email)
    ensures !r.0.Success? ==> r.1 == users
    ensures r.0.Success? ==> exists k :: UpdatedUserAt(users, ParseId(userId), ProfilePatch(name, email), now, k, r.0.user, r.1)
  {
    if EmailTakenAsStored(users, userId, email) then (Conflict("Email already in use"), users)
    else
      match UpdateById(users, ParseId(userId), ProfilePatch(name, email), now)
      case (None, _) => (NotFound("User not found"), users)
      case (Some(u), users') => (Success(u, None, Some("Profile updated successfully")), users')
  }

  /** With the test on the stored e-mail, a profile update never lets two
      users share an e-mail. */
  lemma UpdateUserProfileCheckedKeepsEmailsUnique(users: Users, userId: string, name: Option<string>, email: Option<string>, now: nat)
    requires EmailsUnique(users)
    ensures EmailsUnique(UpdateUserProfileChecked(users, userId, name, email, now).1)
  {
    var r := UpdateUserProfileChecked(users, userId, name, email, now);
    if r.0.Success? {
      var p := ProfilePatch(name, email);
      var k :| UpdatedUserAt(users, ParseId(userId), p, now, k, r.0.user, r.1);
      assert FindById(users, ParseId(userId)) == Some(WithoutPassword(users[k]));
      ReplaceKeepsEmailsUnique(users, k, r.1[k]);
    }
  }

  /** Replacing one record keeps e-mails unique when the new e-mail is the
      old one or nobody's. */
  lemma ReplaceKeepsEmailsUnique(users: Users, k: nat, v: User)
    requires EmailsUnique(users) && k < |users|
    requires v.fields.email == users[k].fields.email || !EmailExists(users, v.fields.email)
    ensures EmailsUnique(users[k := v])
  {
    var u := users[k := v];
    forall i, j | 0 <= i < j < |u| ensures u[i].fields.email != u[j].fields.email {
      if i != k && j != k {
        assert u[i] == users[i] && u[j] == users[j];
      }
    }
  }
}
