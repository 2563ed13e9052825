/**
  The in-memory admin store of `AdminModel`: five seeded department admins,
  lookups that hide the password, the credentials check, and the
  department listings.
 */
module AdminStore {
  import opened Common
  import opened Strings
  import SharedApi

  datatype Admin = Admin(
    id: nat,
    name: string,
    email: string,
    password: Option<string>,
    department: string,
    departmentId: string,
    isActive: bool)

  type Admins = seq<Admin>

  const WATER_DEPARTMENT := "Water Management"
  const ROAD_DEPARTMENT := "Road & Safety"
  const HEALTH_DEPARTMENT := "Health & Sanitation"
  const POWER_DEPARTMENT := "Electricity & Power"
  const WASTE_DEPARTMENT := "Waste Management"

  /** The five admins the store starts with; every one has the password
      "admin123" and is active. */
  const SEED: Admins := [
    Admin(1, "Water Department Admin", "admin@water.gov", Some("admin123"), WATER_DEPARTMENT, "WATER_001", true),
    Admin(2, "Road Safety Admin", "admin@roads.gov", Some("admin123"), ROAD_DEPARTMENT, "ROAD_001", true),
    Admin(3, "Health Department Admin", "admin@health.gov", Some("admin123"), HEALTH_DEPARTMENT, "HEALTH_001", true),
    Admin(4, "Electricity Department Admin", "admin@electricity.gov", Some("admin123"), POWER_DEPARTMENT, "ELECTRICITY_001", true),
    Admin(5, "Waste Management Admin", "admin@waste.gov", Some("admin123"), WASTE_DEPARTMENT, "WASTE_001", true)
  ]

  /** The seed honours the uniqueness the schema declares for `email` and
      `departmentId`, and its ids are 1..5 in order. */
  lemma SeedUnique()
    ensures |SEED| == 5
    ensures forall i :: 0 <= i < |SEED| ==> SEED[i].id == i + 1
    ensures forall i :: 0 <= i < |SEED| ==> SEED[i].password == Some("admin123") && SEED[i].isActive
    ensures forall i, j :: 0 <= i < j < |SEED| ==>
      SEED[i].email != SEED[j].email && SEED[i].departmentId != SEED[j].departmentId
  {
    assert SEED[0].email[6] != SEED[1].email[6];
  }

  /** Only the first two seeded departments are names of the shared
      department table; the other three are spelled differently there. */
  lemma SeedDepartmentsVersusSharedTable()
    ensures SharedApi.IsDepartmentName(SEED[0].department) && SharedApi.IsDepartmentName(SEED[1].department)
    ensures !SharedApi.IsDepartmentName(SEED[2].department)
    ensures !SharedApi.IsDepartmentName(SEED[3].department)
    ensures !SharedApi.IsDepartmentName(SEED[4].department)
  {
    assert SharedApi.DEPARTMENTS[0].name == SEED[0].department;
    assert SharedApi.DEPARTMENTS[1].name == SEED[1].department;
    forall i | 0 <= i < |SharedApi.DEPARTMENTS|
      ensures SharedApi.DEPARTMENTS[i].name != SEED[2].department
      ensures SharedApi.DEPARTMENTS[i].name != SEED[3].department
      ensures SharedApi.DEPARTMENTS[i].name != SEED[4].department
    {
      DepartmentNameDiffers(i);
    }
  }

  lemma DepartmentNameDiffers(i: nat)
    requires i < |SharedApi.DEPARTMENTS|
    ensures SharedApi.DEPARTMENTS[i].name != HEALTH_DEPARTMENT
    ensures SharedApi.DEPARTMENTS[i].name != POWER_DEPARTMENT
    ensures SharedApi.DEPARTMENTS[i].name != WASTE_DEPARTMENT
  {
    var n := SharedApi.DEPARTMENTS[i].name;
    if i == 0 {
      assert n[0] != HEALTH_DEPARTMENT[0] && n[0] != POWER_DEPARTMENT[0] && n[2] != WASTE_DEPARTMENT[2];
    } else if i == 1 {
      assert n[0] != HEALTH_DEPARTMENT[0] && n[0] != POWER_DEPARTMENT[0] && n[0] != WASTE_DEPARTMENT[0];
    } else if i == 2 {
      assert n[0] != HEALTH_DEPARTMENT[0] && n[0] != POWER_DEPARTMENT[0] && n[0] != WASTE_DEPARTMENT[0];
    } else if i == 3 {
      assert |n| != |POWER_DEPARTMENT| && n[0] != HEALTH_DEPARTMENT[0] && n[0] != WASTE_DEPARTMENT[0];
    } else if i == 4 {
      assert |n| != |HEALTH_DEPARTMENT| && n[0] != POWER_DEPARTMENT[0] && n[0] != WASTE_DEPARTMENT[0];
    } else {
      assert n[0] != HEALTH_DEPARTMENT[0] && n[0] != POWER_DEPARTMENT[0] && n[0] != WASTE_DEPARTMENT[0];
    }
  }

  /** `{ ...admin, password: undefined }`. */
  function WithoutPassword(a: Admin): (r: Admin)
    ensures r.password.None?
    ensures r.(password := a.password) == a
  {
    a.(password := None)
  }

  /** `findAll`: every admin, in order, with the password removed. */
  function FindAll(admins: Admins): (r: Admins)
    ensures |r| == |admins|
    ensures forall i :: 0 <= i < |r| ==> r[i] == admins[i].(password := None)
  {
    seq(|admins|, i requires 0 <= i < |admins| => WithoutPassword(admins[i]))
  }

  /** `a.id === parseInt(id)`. */
  predicate IdMatches(a: Admin, id: IdArg)
  {
    id.IdNum? && a.id == id.n
  }

  /** `k` is the position of the first admin with that id. */
  predicate FirstAdminWithId(admins: Admins, id: IdArg, k: int)
  {
    0 <= k < |admins| && IdMatches(admins[k], id) && forall i :: 0 <= i < k ==> !IdMatches(admins[i], id)
  }

  /** `k` is the position of the first admin with exactly that e-mail. */
  predicate FirstAdminWithEmail(admins: Admins, email: string, k: int)
  {
    0 <= k < |admins| && admins[k].email == email && forall i :: 0 <= i < k ==> admins[i].email != email
  }

  /** `findById`: the first admin with that id, without its password, or
      null. */
  function FindById(admins: Admins, id: IdArg): (r: Option<Admin>)
    ensures r.None? <==> forall i :: 0 <= i < |admins| ==> !IdMatches(admins[i], id)
    ensures r.Some? ==> r.value.password.None? && IdMatches(r.value, id)
    ensures r.Some? ==> exists k :: FirstAdminWithId(admins, id, k) && r.value == WithoutPassword(admins[k])
  {
    match Find(admins, a => IdMatches(a, id))
    case None => None
    case Some(a) => Some(WithoutPassword(a))
  }

  /** `findByEmail`: the first admin with exactly that e-mail, without its
      password, or null. */
  function FindByEmail(admins: Admins, email: string): (r: Option<Admin>)
    ensures r.None? <==> forall i :: 0 <= i < |admins| ==> admins[i].email != email
    ensures r.Some? ==> r.value.password.None? && r.value.email == email
    ensures r.Some? ==> exists k :: FirstAdminWithEmail(admins, email, k) && r.value == WithoutPassword(admins[k])
  {
    match Find(admins, (a: Admin) => a.email == email)
    case None => None
    case Some(a) => Some(WithoutPassword(a))
  }

  /** `k` is an admin of department `d` and `a` is its password-free copy. */
  predicate StrippedMember(admins: Admins, d: string, a: Admin, k: int)
  {
    0 <= k < |admins| && admins[k].department == d && a == WithoutPassword(admins[k])
  }

  /** `a => a.department === department`. */
  function InDepartment(department: string): Admin -> bool
  {
    (a: Admin) => a.department == department
  }

  /** `findByDepartment`: exactly the admins of that department, in order,
      without their passwords. */
  function FindByDepartment(admins: Admins, department: string): (r: Admins)
    ensures |r| <= |admins|
    ensures forall a :: a in r ==> exists k :: StrippedMember(admins, department, a, k)
    ensures forall k :: 0 <= k < |admins| && admins[k].department == department ==> WithoutPassword(admins[k]) in r
  {
    var inDepartment := Filter(admins, InDepartment(department));
    var r := FindAll(inDepartment);
    forall a | a in r ensures exists k :: StrippedMember(admins, department, a, k) {
      StrippedComesFromDepartment(admins, department, inDepartment, a);
    }
    forall k | 0 <= k < |admins| && admins[k].department == department ensures WithoutPassword(admins[k]) in r {
      DepartmentMemberIsStripped(inDepartment, admins[k]);
    }
    r
  }

  /** Selecting the department and removing passwords commute, so the
      result lists the password-free admins of the department in store
      order, each as often as it occurs there. */
  lemma FindByDepartmentKeepsOrder(admins: Admins, department: string)
    ensures FindByDepartment(admins, department) == Filter(FindAll(admins), InDepartment(department))
    ensures IsSubsequence(FindByDepartment(admins, department), FindAll(admins))
    ensures forall a :: multiset(FindByDepartment(admins, department))[a] ==
                        if a.department == department then multiset(FindAll(admins))[a] else 0
  {
    StripThenSelect(admins, department);
  }

  lemma {:induction false} StripThenSelect(admins: Admins, department: string)
    ensures FindAll(Filter(admins, InDepartment(department))) == Filter(FindAll(admins), InDepartment(department))
  {
    var p := InDepartment(department);
    if |admins| > 0 {
      var x := admins[0];
      var tail := admins[1..];
      StripThenSelect(tail, department);
      var sel := Filter(tail, p);
      var stripped := FindAll(tail);
      FindAllHead(admins);
      FilterCons(WithoutPassword(x), stripped, p);
      assert p(WithoutPassword(x)) == p(x);
      if p(x) {
        assert Filter(admins, p) == [x] + sel;
        FindAllCons(x, sel);
      } else {
        assert Filter(admins, p) == sel;
      }
    }
  }

  lemma FindAllHead(s: Admins)
    requires |s| > 0
    ensures FindAll(s) == [WithoutPassword(s[0])] + FindAll(s[1..])
  {
  }

  lemma FindAllCons(x: Admin, s: Admins)
    ensures FindAll([x] + s) == [WithoutPassword(x)] + FindAll(s)
  {
  }

  lemma StrippedComesFromDepartment(admins: Admins, department: string, inDepartment: Admins, a: Admin)
    requires forall x :: x in inDepartment ==> x in admins && x.department == department
    requires a in FindAll(inDepartment)
    ensures exists k :: StrippedMember(admins, department, a, k)
  {
    var r := FindAll(inDepartment);
    var i :| 0 <= i < |r| && r[i] == a;
    var x := inDepartment[i];
    assert x in inDepartment;
    var k :| 0 <= k < |admins| && admins[k] == x;
    assert StrippedMember(admins, department, a, k);
  }

  lemma DepartmentMemberIsStripped(inDepartment: Admins, x: Admin)
    requires x in inDepartment
    ensures WithoutPassword(x) in FindAll(inDepartment)
  {
    var i :| 0 <= i < |inDepartment| && inDepartment[i] == x;
    assert FindAll(inDepartment)[i] == WithoutPassword(x);
  }

  /** `a.email === email && a.isActive`. */
  predicate ActiveWithEmail(a: Admin, email: string)
  {
    a.email == email && a.isActive
  }

  /** `k` is the position of the first active admin with that e-mail. */
  predicate FirstActiveWithEmail(admins: Admins, email: string, k: int)
  {
    0 <= k < |admins| && ActiveWithEmail(admins[k], email) && forall i :: 0 <= i < k ==> !ActiveWithEmail(admins[i], email)
  }

  /** `validateCredentials`: the first active admin with that e-mail,
      without its password, provided the passwords are equal; null
      otherwise. */
  function ValidateCredentials(admins: Admins, email: string, password: string): (r: Option<Admin>)
    ensures r.Some? <==> exists k :: FirstActiveWithEmail(admins, email, k) && admins[k].password == Some(password)
    ensures r.Some? ==> exists k :: FirstActiveWithEmail(admins, email, k) && r.value == WithoutPassword(admins[k])
  {
    match Find(admins, a => ActiveWithEmail(a, email))
    case None => None
    case Some(a) => if a.password == Some(password) then Some(WithoutPassword(a)) else None
  }

  /** Every seeded admin logs in with its own e-mail and "admin123", and
      nobody logs in with another password. */
  lemma SeedCredentials(i: nat, password: string)
    requires i < |SEED|
    ensures ValidateCredentials(SEED, SEED[i].email, password).Some? <==> password == "admin123"
    ensures ValidateCredentials(SEED, SEED[i].email, "admin123") == Some(WithoutPassword(SEED[i]))
  {
    SeedUnique();
    var e := SEED[i].email;
    assert FirstActiveWithEmail(SEED, e, i);
    ValidateCredentialsAt(SEED, e, password, i);
    ValidateCredentialsAt(SEED, e, "admin123", i);
  }

  /** Once the first active admin with the e-mail is known, the check
      compares that admin's password and nothing else. */
  lemma ValidateCredentialsAt(admins: Admins, email: string, password: string, k: nat)
    requires FirstActiveWithEmail(admins, email, k)
    ensures ValidateCredentials(admins, email, password).Some? <==> admins[k].password == Some(password)
    ensures ValidateCredentials(admins, email, password).Some? ==>
      ValidateCredentials(admins, email, password) == Some(WithoutPassword(admins[k]))
  {
    forall k' | FirstActiveWithEmail(admins, email, k') ensures k' == k {
      FirstActiveIsUnique(admins, email, k, k');
    }
  }

  lemma FirstActiveIsUnique(admins: Admins, email: string, k: nat, k': nat)
    requires FirstActiveWithEmail(admins, email, k) && FirstActiveWithEmail(admins, email, k')
    ensures k == k'
  {
  }

  /** A department as `getDepartments` reports it. */
  datatype DepartmentInfo = DepartmentInfo(department: string, departmentId: string)

  /** The department of every admin, in store order. */
  function DepartmentsOf(admins: Admins): (r: seq<string>)
    ensures |r| == |admins| && forall i :: 0 <= i < |admins| ==> r[i] == admins[i].department
  {
    seq(|admins|, i requires 0 <= i < |admins| => admins[i].department)
  }

  /** `k` is the first admin of department `d`. */
  predicate FirstInDepartment(admins: Admins, d: string, k: int)
  {
    0 <= k < |admins| && admins[k].department == d && forall i :: 0 <= i < k ==> admins[i].department != d
  }

  /** `info` names a department some admin belongs to, with the
      `departmentId` of the first admin in it. */
  ghost predicate Describes(admins: Admins, info: DepartmentInfo)
  {
    exists k :: FirstInDepartment(admins, info.department, k) && info.departmentId == admins[k].departmentId
  }

  /** `d` is the department of some entry of `r`. */
  predicate Lists(r: seq<DepartmentInfo>, d: string)
  {
    exists i :: 0 <= i < |r| && r[i].department == d
  }

  /** The info of `d` built from its first admin; `d` must have one. */
  function DepartmentInfoOf(admins: Admins, d: string): (r: DepartmentInfo)
    requires d in DepartmentsOf(admins)
    ensures r.department == d && Describes(admins, r)
  {
    var k := FirstIndex(admins, (a: Admin) => a.department == d);
    assert FirstInDepartment(admins, d, k);
    DepartmentInfo(d, admins[k].departmentId)
  }

  /** `getDepartments`: each department some admin belongs to, exactly
      once, with the `departmentId` of the first admin in it. */
  function GetDepartments(admins: Admins): (r: seq<DepartmentInfo>)
    ensures |r| == |Distinct(DepartmentsOf(admins))|
    ensures forall i :: 0 <= i < |r| ==> r[i].department == Distinct(DepartmentsOf(admins))[i]
    ensures forall i :: 0 <= i < |r| ==> Describes(admins, r[i])
    ensures forall k :: 0 <= k < |admins| ==> Lists(r, admins[k].department)
    ensures forall i, j :: 0 <= i < j < |r| ==> r[i].department != r[j].department
  {
    var ds := DepartmentsOf(admins);
    var names := Distinct(ds);
    var r := seq(|names|, i requires 0 <= i < |names| => DepartmentInfoOf(admins, names[i]));
    InfosFollowNames(r, names);
    forall k | 0 <= k < |admins| ensures Lists(r, admins[k].department) {
      assert ds[k] in names;
    }
    r
  }

  /** Departments come in the order their first admin appears in the
      store, which is the iteration order of the `Set` the source builds. */
  lemma GetDepartmentsInFirstAdminOrder(admins: Admins)
    ensures var r := GetDepartments(admins);
            var ds := DepartmentsOf(admins);
            forall i, j :: 0 <= i < j < |r| ==>
              r[i].department in ds && r[j].department in ds &&
              FirstPosition(ds, r[i].department) < FirstPosition(ds, r[j].department)
  {
    var ds := DepartmentsOf(admins);
    DistinctInFirstOccurrenceOrder(ds);
  }

  /** Infos that follow a list of names position by position list every
      name, and distinct names give distinct departments. */
  lemma InfosFollowNames(r: seq<DepartmentInfo>, names: seq<string>)
    requires |r| == |names| && forall i :: 0 <= i < |r| ==> r[i].department == names[i]
    ensures forall x :: x in names ==> Lists(r, x)
    ensures NoDuplicates(names) ==> forall i, j :: 0 <= i < j < |r| ==> r[i].department != r[j].department
  {
    forall x | x in names ensures Lists(r, x) {
      var i :| 0 <= i < |names| && names[i] == x;
      assert r[i].department == x;
    }
  }

  /** `getDepartmentByEmail`: department and id of the first admin with that
      e-mail, or null. */
  function GetDepartmentByEmail(admins: Admins, email: string): (r: Option<DepartmentInfo>)
    ensures r.None? <==> forall i :: 0 <= i < |admins| ==> admins[i].email != email
    ensures r.Some? ==> exists k :: FirstAdminWithEmail(admins, email, k) && r.value == DepartmentInfo(admins[k].department, admins[k].departmentId)
  {
    match Find(admins, (a: Admin) => a.email == email)
    case None => None
    case Some(a) => Some(DepartmentInfo(a.department, a.departmentId))
  }

  /** `emailExists`. */
  predicate EmailExists(admins: Admins, email: string)
  {
    exists i :: 0 <= i < |admins| && admins[i].email == email
  }

  /** `getDepartmentByEmail` answers exactly for the e-mails that exist. */
  lemma GetDepartmentByEmailIffExists(admins: Admins, email: string)
    ensures GetDepartmentByEmail(admins, email).Some? <==> EmailExists(admins, email)
  {
  }
}
