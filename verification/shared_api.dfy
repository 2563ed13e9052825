/**
  The definitions shared by client and server: the department and admin
  tables, the status and sentiment option lists, the e-mail and password
  predicates, and the shape of the JSON responses.
 */
module SharedApi {
  import opened Common
  import opened Strings

  datatype Department = Department(id: string, name: string, email: string)

  const DEPARTMENTS: seq<Department> := [
    Department("water", "Water Management", "admin@water.gov"),
    Department("roads", "Road & Safety", "admin@roads.gov"),
    Department("health", "Public Health", "admin@health.gov"),
    Department("electricity", "Electricity Board", "admin@power.gov"),
    Department("sanitation", "Sanitation", "admin@sanitation.gov"),
    Department("general", "General Administration", "admin@general.gov")
  ]

  datatype AdminUser = AdminUser(
    id: string, name: string, email: string, password: string,
    department: string, departmentId: string)

  const ADMIN_USERS: seq<AdminUser> := [
    AdminUser("water", "Water Department Admin", "admin@water.gov", "water123", "Water Management", "water"),
    AdminUser("roads", "Road & Safety Admin", "admin@roads.gov", "roads123", "Road & Safety", "roads"),
    AdminUser("health", "Health Department Admin", "admin@health.gov", "health123", "Public Health", "health"),
    AdminUser("electricity", "Electricity Admin", "admin@power.gov", "power123", "Electricity Board", "electricity"),
    AdminUser("sanitation", "Sanitation Admin", "admin@sanitation.gov", "clean123", "Sanitation", "sanitation"),
    AdminUser("general", "General Admin", "admin@general.gov", "admin123", "General Administration", "general")
  ]

  const COMPLAINT_STATUS: seq<string> := ["Pending", "In Progress", "Resolved"]
  const COMPLAINT_SENTIMENT: seq<string> := ["High", "Medium", "Low"]

  /** True when `name` is the name of one of the configured departments. */
  predicate IsDepartmentName(name: string)
  {
    exists i :: 0 <= i < |DEPARTMENTS| && DEPARTMENTS[i].name == name
  }

  /** The department table has six entries with distinct ids, names and
      e-mails, and every admin account belongs to a configured department
      whose contact e-mail is the admin's own e-mail. */
  lemma TablesAgree()
    ensures |DEPARTMENTS| == 6 && |ADMIN_USERS| == 6
    ensures forall i, j :: 0 <= i < j < |DEPARTMENTS| ==>
      DEPARTMENTS[i].name != DEPARTMENTS[j].name
      && DEPARTMENTS[i].email != DEPARTMENTS[j].email
      && DEPARTMENTS[i].id != DEPARTMENTS[j].id
    ensures forall a :: a in ADMIN_USERS ==>
      exists d :: d in DEPARTMENTS && d.name == a.department && d.email == a.email && d.id == a.departmentId
  {
    forall i, j | 0 <= i < j < |DEPARTMENTS|
      ensures DEPARTMENTS[i].name != DEPARTMENTS[j].name
      ensures DEPARTMENTS[i].email != DEPARTMENTS[j].email
      ensures DEPARTMENTS[i].id != DEPARTMENTS[j].id
    {
      DepartmentKeysDiffer(i, j);
    }
    forall a | a in ADMIN_USERS
      ensures exists d :: d in DEPARTMENTS && d.name == a.department && d.email == a.email && d.id == a.departmentId
    {
      var i :| 0 <= i < |ADMIN_USERS| && ADMIN_USERS[i] == a;
      assert DEPARTMENTS[i].name == a.department;
    }
  }

  /** Two entries of the department table already differ in the first
      letter of their names and ids and in the letter after "admin@". */
  lemma DepartmentKeysDiffer(i: nat, j: nat)
    requires i < j < |DEPARTMENTS|
    ensures DEPARTMENTS[i].name[0] != DEPARTMENTS[j].name[0]
    ensures DEPARTMENTS[i].email[6] != DEPARTMENTS[j].email[6]
    ensures DEPARTMENTS[i].id[0] != DEPARTMENTS[j].id[0]
  {
    DepartmentKeys(i);
    DepartmentKeys(j);
  }

  /** The letters that tell the rows of the department table apart. */
  const NAME_KEYS := "WRPESG"
  const ID_KEYS := "wrhesg"
  const MAIL_KEYS := "wrhpsg"

  lemma DepartmentKeys(k: nat)
    requires k < |DEPARTMENTS|
    ensures DEPARTMENTS[k].name[0] == NAME_KEYS[k]
    ensures DEPARTMENTS[k].id[0] == ID_KEYS[k]
    ensures DEPARTMENTS[k].email[6] == MAIL_KEYS[k]
  {
    if k == 0 {
    } else if k == 1 {
    } else if k == 2 {
    } else if k == 3 {
    } else if k == 4 {
    } else {
    }
  }

  /** The status list offered to clients leaves out 'Rejected', and the
      sentiment list leaves out 'Critical'. */
  lemma OptionListsOmitValues()
    ensures "Rejected" !in COMPLAINT_STATUS
    ensures "Critical" !in COMPLAINT_SENTIMENT
  {
  }

  /** A character `[^\s@]` accepts. */
  predicate IsEmailChar(c: char)
  {
    !IsSpace(c) && c != '@'
  }

  predicate AllEmailChars(s: string)
  {
    forall i :: 0 <= i < |s| ==> IsEmailChar(s[i])
  }

  /** `d` has a '.' that is neither its first nor its last character. */
  predicate HasInnerDot(d: string)
  {
    exists i :: 0 < i < |d| - 1 && d[i] == '.'
  }

  /** `validateEmail`: no white space, exactly one '@' with something before
      it, and a '.' strictly inside the part after it. */
  predicate ValidateEmail(e: string)
  {
    match IndexOfChar(e, '@')
    case None => false
    case Some(a) =>
      a > 0 && AllEmailChars(e[..a]) && AllEmailChars(e[a + 1..]) && HasInnerDot(e[a + 1..])
  }

  /** One way of reading `e` against `/^[^\s@]+@[^\s@]+\.[^\s@]+$/`. */
  ghost predicate EmailSplit(e: string, local: string, host: string, tld: string)
  {
    && e == local + "@" + host + "." + tld
    && |local| > 0 && |host| > 0 && |tld| > 0
    && AllEmailChars(local) && AllEmailChars(host) && AllEmailChars(tld)
  }

  /** The regular expression of `validateEmail`, as a decomposition. */
  ghost predicate MatchesEmailPattern(e: string)
  {
    exists local, host, tld :: EmailSplit(e, local, host, tld)
  }

  /** `ValidateEmail` accepts exactly the strings the regular expression
      matches. */
  lemma ValidateEmailMatchesPattern(e: string)
    ensures ValidateEmail(e) <==> MatchesEmailPattern(e)
  {
    if ValidateEmail(e) {
      ValidEmailMatches(e);
    }
    if MatchesEmailPattern(e) {
      var local, host, tld :| EmailSplit(e, local, host, tld);
      MatchingEmailIsValid(e, local, host, tld);
    }
  }

  lemma ValidEmailMatches(e: string)
    requires ValidateEmail(e)
    ensures MatchesEmailPattern(e)
  {
    var a := IndexOfChar(e, '@').value;
    var local, d := e[..a], e[a + 1..];
    var i :| 0 < i < |d| - 1 && d[i] == '.';
    var host, tld := d[..i], d[i + 1..];
    SplitAround(e, a);
    SplitAround(d, i);
    JoinEmail(e, local, d, host, tld);
    EmailCharsOfSlice(d, 0, i);
    EmailCharsOfSlice(d, i + 1, |d|);
    assert EmailSplit(e, local, host, tld);
  }

  lemma JoinEmail(e: string, local: string, d: string, host: string, tld: string)
    requires e == local + "@" + d && d == host + "." + tld
    ensures e == local + "@" + host + "." + tld
  {
  }

  /** Cutting `s` around position `k`. */
  lemma SplitAround(s: string, k: nat)
    requires k < |s|
    ensures s == s[..k] + [s[k]] + s[k + 1..]
  {
  }

  /** Every slice of a string of e-mail characters is one too. */
  lemma EmailCharsOfSlice(s: string, lo: nat, hi: nat)
    requires lo <= hi <= |s| && AllEmailChars(s)
    ensures AllEmailChars(s[lo..hi])
  {
    assert forall k :: 0 <= k < hi - lo ==> s[lo..hi][k] == s[lo + k];
  }

  lemma MatchingEmailIsValid(e: string, local: string, host: string, tld: string)
    requires EmailSplit(e, local, host, tld)
    ensures ValidateEmail(e)
  {
    var a := |local|;
    var d := host + "." + tld;
    assert e == local + "@" + d;
    assert e[a] == '@' && e[..a] == local;
    assert forall k :: 0 <= k < |local| ==> local[k] != '@';
    assert IndexOfChar(e, '@') == Some(a);
    assert e[a + 1..] == d;
    assert d[|host|] == '.';
    assert AllEmailChars(d) by {
      forall k | 0 <= k < |d| ensures IsEmailChar(d[k]) {
        if k < |host| {
          assert d[k] == host[k];
        } else if k > |host| {
          assert d[k] == tld[k - |host| - 1];
        }
      }
    }
  }

  /** Letter case does not matter to `validateEmail`. */
  lemma ValidateEmailIgnoresCase(e: string)
    ensures ValidateEmail(Lower(e)) == ValidateEmail(e)
  {
    IndexOfCharLower(e, '@');
    match IndexOfChar(e, '@')
    case None =>
    case Some(a) =>
      var l := Lower(e);
      assert l[..a] == Lower(e[..a]) && l[a + 1..] == Lower(e[a + 1..]);
      LowerKeepsEmailChars(e[..a]);
      LowerKeepsEmailChars(e[a + 1..]);
      var d, ld := e[a + 1..], l[a + 1..];
      assert forall i :: 0 <= i < |d| ==> (ld[i] == '.' <==> d[i] == '.');
  }

  lemma LowerKeepsEmailChars(s: string)
    ensures AllEmailChars(Lower(s)) == AllEmailChars(s)
  {
    assert forall i :: 0 <= i < |s| ==> (IsEmailChar(Lower(s)[i]) <==> IsEmailChar(s[i]));
  }

  /** `validatePassword`: present and at least six characters long. */
  predicate ValidatePassword(password: Option<string>)
  {
    password.Some? && |password.value| >= 6
  }

  /** JavaScript truthiness of an optional string: present and non-empty. */
  predicate IsTruthy(s: Option<string>)
  {
    s.Some? && |s.value| > 0
  }

  /** The body `createResponse` builds: `data`, `message` and `error` appear
      only when the corresponding argument was truthy. */
  datatype Response<D> = Response(
    success: bool, data: Option<D>, message: Option<string>, error: Option<string>)

  /** Keeps a string argument only when it is truthy. */
  function KeepTruthy(s: Option<string>): (r: Option<string>)
    ensures r.Some? <==> IsTruthy(s)
    ensures r.Some? ==> r == s
  {
    if IsTruthy(s) then s else None
  }

  /** `createResponse`; an object argument is always truthy, so `data` is
      kept whenever it is given. */
  function CreateResponse<D>(success: bool, data: Option<D>, message: Option<string>, error: Option<string>): (r: Response<D>)
    ensures r.success == success
    ensures r.data == data
    ensures r.message.Some? <==> IsTruthy(message)
    ensures r.error.Some? <==> IsTruthy(error)
    ensures r.message.Some? ==> r.message == message
    ensures r.error.Some? ==> r.error == error
  {
    Response(success, data, KeepTruthy(message), KeepTruthy(error))
  }

  /** The body `createComplaintResponse` builds. */
  datatype ComplaintResponse<C> = ComplaintResponse(
    success: bool, complaint: Option<C>, complaints: Option<seq<C>>,
    message: Option<string>, error: Option<string>)

  /** `createComplaintResponse`: same rule as `CreateResponse`; a list,
      even an empty one, is truthy. */
  function CreateComplaintResponse<C>(success: bool, complaint: Option<C>, complaints: Option<seq<C>>,
                                      message: Option<string>, error: Option<string>): (r: ComplaintResponse<C>)
    ensures r.success == success
    ensures r.complaint == complaint && r.complaints == complaints
    ensures r.message.Some? <==> IsTruthy(message)
    ensures r.error.Some? <==> IsTruthy(error)
    ensures r.message.Some? ==> r.message == message
    ensures r.error.Some? ==> r.error == error
  {
    ComplaintResponse(success, complaint, complaints, KeepTruthy(message), KeepTruthy(error))
  }
}
