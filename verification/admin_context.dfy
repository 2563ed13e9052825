/**
  The client-side admin session: the hard-coded department credentials,
  the login and logout transitions of the session state, and the list of
  departments offered on the login page.
 */
module AdminContext {
  import opened Common
  import SharedApi
  import AdminStore

  /** One credentials entry, under its key. */
  datatype Credentials = Credentials(key: string, email: string, password: string, department: string, name: string)

  /** `DEPARTMENT_CREDENTIALS`, in the order `Object.entries` lists it. */
  const DEPARTMENT_CREDENTIALS: seq<Credentials> := [
    Credentials("water", "admin@water.gov", "water123", "Water Management", "Water Department Admin"),
    Credentials("roads", "admin@roads.gov", "roads123", "Road & Safety", "Road & Safety Admin"),
    Credentials("health", "admin@health.gov", "health123", "Public Health", "Health Department Admin"),
    Credentials("electricity", "admin@power.gov", "power123", "Electricity Board", "Electricity Admin"),
    Credentials("sanitation", "admin@sanitation.gov", "clean123", "Sanitation", "Sanitation Admin"),
    Credentials("general", "admin@general.gov", "admin123", "General Administration", "General Admin")
  ]

  /** The session's `adminUser`: `{ id: key, ...entry }`. */
  datatype SessionAdmin = SessionAdmin(id: string, email: string, password: string, department: string, name: string)

  datatype Session = Session(adminUser: Option<SessionAdmin>, isAuthenticated: bool)

  const SIGNED_OUT := Session(None, false)

  /** The two state variables move together. */
  predicate Consistent(s: Session)
  {
    s.isAuthenticated <==> s.adminUser.Some?
  }

  predicate Matches(c: Credentials, email: string, password: string)
  {
    c.email == email && c.password == password
  }

  /** Entry `k` is the first whose e-mail and password both match. */
  predicate FirstMatch(email: string, password: string, k: int)
  {
    0 <= k < |DEPARTMENT_CREDENTIALS| && Matches(DEPARTMENT_CREDENTIALS[k], email, password)
    && forall i :: 0 <= i < k ==> !Matches(DEPARTMENT_CREDENTIALS[i], email, password)
  }

  function AdminOfEntry(c: Credentials): SessionAdmin
  {
    SessionAdmin(c.key, c.email, c.password, c.department, c.name)
  }

  datatype LoginResult = LoginOk(admin: SessionAdmin) | LoginFailed(error: string)

  const INVALID_CREDENTIALS := "Invalid credentials"

  /** `loginAdmin`: the first entry matching both e-mail and password
      exactly becomes the signed-in admin, keyed by its entry key; with no
      match the session is left as it was. */
  function LoginAdmin(s: Session, email: string, password: string): (r: (LoginResult, Session))
    ensures r.0.LoginOk? <==> exists i :: 0 <= i < |DEPARTMENT_CREDENTIALS| && Matches(DEPARTMENT_CREDENTIALS[i], email, password)
    ensures r.0.LoginOk? ==> r.0.admin.email == email && r.0.admin.password == password
    ensures r.0.LoginOk? ==> exists k :: FirstMatch(email, password, k) && r.0.admin == AdminOfEntry(DEPARTMENT_CREDENTIALS[k])
    ensures r.0.LoginOk? ==> r.1 == Session(Some(r.0.admin), true)
    ensures r.0.LoginFailed? ==> r.0.error == INVALID_CREDENTIALS && r.1 == s
  {
    var k := MatchIndex(email, password);
    if k == -1 then (LoginFailed(INVALID_CREDENTIALS), s)
    else
      var admin := AdminOfEntry(DEPARTMENT_CREDENTIALS[k]);
      (LoginOk(admin), Session(Some(admin), true))
  }

  /** The `find` over the entries: the position of the first entry matching
      both e-mail and password, or -1. */
  function MatchIndex(email: string, password: string): (k: int)
    ensures k == -1 <==> forall i :: 0 <= i < |DEPARTMENT_CREDENTIALS| ==> !Matches(DEPARTMENT_CREDENTIALS[i], email, password)
    ensures k != -1 ==> FirstMatch(email, password, k)
  {
    FirstIndex(DEPARTMENT_CREDENTIALS, c => Matches(c, email, password))
  }

  /** `logoutAdmin`: whatever the session was, it ends signed out. */
  function LogoutAdmin(s: Session): (r: Session)
    ensures r.adminUser.None? && !r.isAuthenticated
  {
    SIGNED_OUT
  }

  /** The start-up effect: a saved admin, when there is one, is restored
      as signed in. */
  function Restore(s: Session, saved: Option<SessionAdmin>): (r: Session)
    ensures saved.Some? ==> r.adminUser == saved && r.isAuthenticated
    ensures saved.None? ==> r == s
  {
    if saved.Some? then Session(saved, true) else s
  }

  /** Every transition keeps the two state variables in step, starting from
      the signed-out state. */
  lemma TransitionsKeepConsistent(s: Session, email: string, password: string, saved: Option<SessionAdmin>)
    requires Consistent(s)
    ensures Consistent(SIGNED_OUT)
    ensures Consistent(LoginAdmin(s, email, password).1)
    ensures Consistent(LogoutAdmin(s))
    ensures Consistent(Restore(s, saved))
  {
  }

  /** The e-mails of the entries are pairwise distinct. */
  lemma EmailsDistinct()
    ensures forall i, j :: 0 <= i < j < |DEPARTMENT_CREDENTIALS| ==>
      DEPARTMENT_CREDENTIALS[i].email != DEPARTMENT_CREDENTIALS[j].email
  {
  }

  /** Every entry's own e-mail and password sign in as exactly that entry. */
  lemma EveryEntrySignsIn(s: Session, k: nat)
    requires k < |DEPARTMENT_CREDENTIALS|
    ensures var c := DEPARTMENT_CREDENTIALS[k];
      LoginAdmin(s, c.email, c.password) == (LoginOk(AdminOfEntry(c)), Session(Some(AdminOfEntry(c)), true))
  {
    var c := DEPARTMENT_CREDENTIALS[k];
    var m := MatchIndex(c.email, c.password);
    assert Matches(DEPARTMENT_CREDENTIALS[k], c.email, c.password);
    EmailsDistinct();
    assert m == k;
  }

  datatype DepartmentOption = DepartmentOption(id: string, name: string, email: string)

  /** `availableDepartments`: one option per entry, in entry order, named
      after the entry's department. */
  function AvailableDepartments(): (r: seq<DepartmentOption>)
    ensures |r| == |DEPARTMENT_CREDENTIALS|
    ensures forall i :: 0 <= i < |r| ==>
      r[i].id == DEPARTMENT_CREDENTIALS[i].key && r[i].name == DEPARTMENT_CREDENTIALS[i].department
      && r[i].email == DEPARTMENT_CREDENTIALS[i].email
  {
    seq(|DEPARTMENT_CREDENTIALS|, i requires 0 <= i < |DEPARTMENT_CREDENTIALS| =>
      DepartmentOption(DEPARTMENT_CREDENTIALS[i].key, DEPARTMENT_CREDENTIALS[i].department, DEPARTMENT_CREDENTIALS[i].email))
  }

  /** The login page offers exactly the shared department table. */
  lemma AvailableDepartmentsAreShared()
    ensures |AvailableDepartments()| == |SharedApi.DEPARTMENTS|
    ensures forall i :: 0 <= i < |SharedApi.DEPARTMENTS| ==>
      AvailableDepartments()[i] == DepartmentOption(SharedApi.DEPARTMENTS[i].id, SharedApi.DEPARTMENTS[i].name, SharedApi.DEPARTMENTS[i].email)
  {
  }

  /** The credentials agree entry for entry with the shared admin table:
      key and id, e-mail, password, department and name. */
  lemma CredentialsAgreeWithAdminUsers()
    ensures |DEPARTMENT_CREDENTIALS| == |SharedApi.ADMIN_USERS|
    ensures forall i :: 0 <= i < |DEPARTMENT_CREDENTIALS| ==>
      var c := DEPARTMENT_CREDENTIALS[i];
      var a := SharedApi.ADMIN_USERS[i];
      c.key == a.id && c.email == a.email && c.password == a.password && c.department == a.department && c.name == a.name
  {
  }

  const SERVER_PASSWORD := "admin123"
  const GENERAL := "General Administration"

  /** The server's admin accounts all have the password "admin123", and
      none of them belongs to the general administration. */
  lemma ServerAdminsShareOnePassword()
    ensures forall a :: a in AdminStore.SEED ==> a.password == Some(SERVER_PASSWORD) && a.department != GENERAL
  {
    forall a | a in AdminStore.SEED ensures a.password == Some(SERVER_PASSWORD) && a.department != GENERAL {
      assert a.department[0] != GENERAL[0];
    }
  }

  /** On the client the server's password signs in only as the general
      administration, so the client and the server never share an admin
      account's department. */
  lemma ServerPasswordSignsInOnlyAsGeneral(s: Session, email: string)
    requires LoginAdmin(s, email, SERVER_PASSWORD).0.LoginOk?
    ensures LoginAdmin(s, email, SERVER_PASSWORD).0.admin.department == GENERAL
  {
    var k :| FirstMatch(email, SERVER_PASSWORD, k) && LoginAdmin(s, email, SERVER_PASSWORD).0.admin == AdminOfEntry(DEPARTMENT_CREDENTIALS[k]);
    OnlyGeneralHasServerPassword(k);
  }

  lemma OnlyGeneralHasServerPassword(k: int)
    requires 0 <= k < |DEPARTMENT_CREDENTIALS| && DEPARTMENT_CREDENTIALS[k].password == SERVER_PASSWORD
    ensures DEPARTMENT_CREDENTIALS[k].department == GENERAL
  {
    assert DEPARTMENT_CREDENTIALS[k].password[0] == SERVER_PASSWORD[0];
  }
}
