/**
  The complaint endpoints: listing, reading, creating, updating and
  deleting complaints and reading statistics, scoped by the identity the
  authentication middleware left on the request. Each handler reads the
  complaint, admin and user stores; the two that change the complaint store
  return the new store with their reply.
 */
module ComplaintController {
  import opened Common
  import opened Strings
  import SharedApi
  import opened ComplaintStore
  import ComplaintStats
  import ComplaintSeed
  import AdminStore
  import UserStore
  import opened AuthMiddleware

  /** What a handler answers. */
  datatype Reply =
    | NotFound(error: string)
    | Forbidden(error: string)
    | One(complaint: Complaint, message: Option<string>)
    | Many(complaints: seq<Complaint>, summary: string)
    | Deleted(notice: string)
    | Statistics(stats: ComplaintStats.Stats)

  /** The query string of the listing endpoints. */
  datatype Query = Query(
    department: Option<string>,
    status: Option<string>,
    sentiment: Option<string>,
    search: Option<string>,
    limit: Option<string>,
    offset: Option<string>)

  const COMPLAINT_NOT_FOUND := "Complaint not found"
  const ACCESS_DENIED := "Access denied"
  const UPDATE_OTHER_DEPARTMENT := "You can only update complaints from your department"
  const DELETE_NOT_OWN := "You can only delete your own complaints"
  const DELETE_OTHER_DEPARTMENT := "You can only delete complaints from your department"
  const ADMIN_NOT_FOUND := "Admin not found"

  /** `AdminModel.findById(adminId)` on the id the request carries. */
  function AdminOf(admins: AdminStore.Admins, adminId: string): Option<AdminStore.Admin>
  {
    AdminStore.FindById(admins, ParseId(adminId))
  }

  /** The status filter, as `findAll` applies it. */
  predicate StatusPasses(q: Query, c: Complaint)
  {
    SharedApi.IsTruthy(q.status) ==> c.fields.status == q.status
  }

  // ---------------------------------------------------------------------------
  // Scoping shared by the listing and the statistics

  /** `if (userId && !adminId) filters.userId = userId`: only a request with
      a user id and no admin id is narrowed to its own records. */
  function UserScope(id: Identity): (r: Option<IdArg>)
    ensures r.Some? <==> IsUser(id) && !IsAdmin(id)
    ensures r.Some? ==> r.value == ParseId(id.userId.value)
  {
    if IsUser(id) && !IsAdmin(id) then Some(ParseId(id.userId.value)) else None
  }

  /** The department an admin's listing is narrowed to: the one the query
      names, whichever it is, else the admin's own when the admin exists.
      A request without an admin id is not narrowed. */
  function DepartmentScope(admins: AdminStore.Admins, id: Identity, department: Option<string>): (r: Option<string>)
    ensures !IsAdmin(id) ==> r.None?
    ensures IsAdmin(id) && SharedApi.IsTruthy(department) ==> r == department
    ensures IsAdmin(id) && !SharedApi.IsTruthy(department) ==>
      r == (if AdminOf(admins, id.adminId.value).Some? then Some(AdminOf(admins, id.adminId.value).value.department) else None)
  {
    if IsAdmin(id) && SharedApi.IsTruthy(department) then department
    else if IsAdmin(id) then
      match AdminOf(admins, id.adminId.value)
      case Some(a) => Some(a.department)
      case None => None
    else None
  }

  function ListFilters(admins: AdminStore.Admins, id: Identity, q: Query): Filters
  {
    Filters(q.status, DepartmentScope(admins, id, q.department), UserScope(id), None,
            q.sentiment, q.search, q.limit, q.offset)
  }

  /** "Found <n> complaints". */
  function FoundMessage(n: nat, suffix: string): string
  {
    "Found " + NatToString(n) + suffix
  }

  // ---------------------------------------------------------------------------
  // Handlers

  /** `getComplaints`: the stored records in the request's scope that pass
      the status filter, newest first. A user sees the records whose numeric
      `userId` is the one the token carries; an admin sees one department. */
  function GetComplaints(store: Store, admins: AdminStore.Admins, id: Identity, q: Query): (r: Reply)
    ensures r.Many? && NewestFirst(r.complaints)
    ensures r.summary == FoundMessage(|r.complaints|, " complaints")
    ensures forall c :: c in r.complaints ==> c in store && StatusPasses(q, c)
    ensures IsUser(id) && !IsAdmin(id) ==>
      forall c :: c in r.complaints <==> c in store && StatusPasses(q, c) && EqualsParsed(c.fields.userId, ParseId(id.userId.value))
    ensures var d := DepartmentScope(admins, id, q.department);
      IsAdmin(id) && SharedApi.IsTruthy(d) ==>
        forall c :: c in r.complaints <==> c in store && StatusPasses(q, c) && c.fields.department == d.value
    ensures !IsAuthenticated(id) ==> forall c :: c in r.complaints <==> c in store && StatusPasses(q, c)
    ensures IsUser(id) && !IsAdmin(id) ==>
      forall c :: multiset(r.complaints)[c] ==
        if StatusPasses(q, c) && EqualsParsed(c.fields.userId, ParseId(id.userId.value)) then multiset(store)[c] else 0
    ensures var d := DepartmentScope(admins, id, q.department);
      IsAdmin(id) && SharedApi.IsTruthy(d) ==>
        forall c :: multiset(r.complaints)[c] ==
          if StatusPasses(q, c) && c.fields.department == d.value then multiset(store)[c] else 0
    ensures var d := DepartmentScope(admins, id, q.department);
      (!IsAuthenticated(id) || (IsAdmin(id) && !SharedApi.IsTruthy(d))) ==>
        forall c :: multiset(r.complaints)[c] == if StatusPasses(q, c) then multiset(store)[c] else 0
  {
    var cs := FindAll(store, ListFilters(admins, id, q));
    Many(cs, FoundMessage(|cs|, " complaints"))
  }

  /** `getComplaint`: NotFound for an unknown id; then Forbidden when the
      request has a user id and the record's `userId` is not strictly that
      string; then Forbidden when the request's admin exists and belongs to
      another department; otherwise the record. */
  function GetComplaint(store: Store, admins: AdminStore.Admins, id: Identity, param: string): (r: Reply)
    ensures r.NotFound? || r.Forbidden? || r.One?
    ensures r.NotFound? <==> !HasId(store, ParseId(param))
    ensures r.NotFound? ==> r.error == COMPLAINT_NOT_FOUND
    ensures r.Forbidden? ==> r.error == ACCESS_DENIED
    ensures r.One? ==> r.complaint in store && IdMatches(r.complaint, ParseId(param)) && r.message.None?
    ensures r.One? ==> FindById(store, ParseId(param)) == Some(r.complaint)
    ensures HasId(store, ParseId(param)) ==>
      var c := FindById(store, ParseId(param)).value;
      (r.Forbidden? <==>
        || (IsUser(id) && c.fields.userId != TextId(id.userId.value))
        || (IsAdmin(id) && AdminOf(admins, id.adminId.value).Some?
            && c.fields.department != AdminOf(admins, id.adminId.value).value.department))
  {
    match FindById(store, ParseId(param))
    case None => NotFound(COMPLAINT_NOT_FOUND)
    case Some(c) =>
      if IsUser(id) && c.fields.userId != TextId(id.userId.value) then Forbidden(ACCESS_DENIED)
      else if IsAdmin(id) && AdminOf(admins, id.adminId.value).Some?
              && c.fields.department != AdminOf(admins, id.adminId.value).value.department then Forbidden(ACCESS_DENIED)
      else One(c, None)
  }

  /** The body `createComplaint` reads once validation has passed. */
  datatype NewComplaint = NewComplaint(
    text: string, category: string, department: string, departmentEmail: string, image: Option<string>)

  const USER_PREFIX := "User "
  const SUBMITTED := "Complaint submitted successfully"

  /** `createComplaint`: stores the four texts, the image only when it is a
      non-empty string, the token's user id as the string it is, and as
      `submittedBy` the user's name, or "User <id>" when no user has that
      id. Status, sentiment and priority are left unset. */
  function CreateComplaint(store: Store, users: UserStore.Users, userId: string, body: NewComplaint, now: nat): (r: (Reply, Store))
    ensures r.0.One? && r.0.message == Some(SUBMITTED)
    ensures r.1 == store + [r.0.complaint] && r.0.complaint.id == |store| + 1
    ensures var c := r.0.complaint.fields;
      && c.text == body.text && c.category == body.category && c.department == body.department
      && c.departmentEmail == body.departmentEmail
      && c.image == (if SharedApi.IsTruthy(body.image) then body.image else None)
      && c.userId == TextId(userId)
      && c.status.None? && c.sentiment.None? && c.priority.None? && c.assignedTo.None?
    ensures var u := UserStore.FindById(users, ParseId(userId));
      r.0.complaint.fields.submittedBy == if u.Some? then u.value.fields.name else USER_PREFIX + userId
  {
    var submittedBy :=
      match UserStore.FindById(users, ParseId(userId))
      case Some(u) => u.fields.name
      case None => USER_PREFIX + userId;
    var data := Fields(body.text, if SharedApi.IsTruthy(body.image) then body.image else None,
                       body.category, body.department, body.departmentEmail, None, None,
                       submittedBy, TextId(userId), None, None, None, None);
    var (c, store') := Create(store, data, now);
    (One(c, Some(SUBMITTED)), store')
  }

  const STATUS_UPDATED := "Complaint status updated successfully"

  /** `updateComplaint`: NotFound for an unknown id; Forbidden unless the
      admin exists and belongs to the record's department; otherwise the
      record's status is set and it is re-stamped. */
  function UpdateComplaint(store: Store, admins: AdminStore.Admins, adminId: string, param: string,
                           status: string, now: nat): (r: (Reply, Store))
    ensures r.0.NotFound? || r.0.Forbidden? || r.0.One?
    ensures r.0.NotFound? <==> !HasId(store, ParseId(param))
    ensures r.0.Forbidden? ==> r.0.error == UPDATE_OTHER_DEPARTMENT
    ensures !r.0.One? ==> r.1 == store
    ensures HasId(store, ParseId(param)) ==>
      (r.0.One? <==> AdminOf(admins, adminId).Some?
                     && AdminOf(admins, adminId).value.department == FindById(store, ParseId(param)).value.fields.department)
    ensures r.0.One? ==> r.0.message == Some(STATUS_UPDATED)
    ensures r.0.One? ==> exists k :: FirstWithId(store, ParseId(param), k) && StatusSetAt(store, k, status, now, r.0.complaint, r.1)
  {
    match FindById(store, ParseId(param))
    case None => (NotFound(COMPLAINT_NOT_FOUND), store)
    case Some(c) =>
      var admin := AdminOf(admins, adminId);
      if admin.None? || c.fields.department != admin.value.department then
        (Forbidden(UPDATE_OTHER_DEPARTMENT), store)
      else
        var (u, store') := UpdateById(store, ParseId(param), EmptyPatch.(status := Some(status)), now);
        var k := FindIndex(store, ParseId(param));
        MergeLaws(store[k].fields, EmptyPatch, status);
        assert StatusSetAt(store, k, status, now, u.value, store');
        (One(u.value, Some(STATUS_UPDATED)), store')
  }

  /** Record `k` now has status `status` and update time `now`, nothing else
      about it changed, and no other record changed. */
  predicate StatusSetAt(store: Store, k: int, status: string, now: nat, c: Complaint, store': Store)
    requires 0 <= k < |store|
  {
    && c == store[k].(fields := store[k].fields.(status := Some(status)), updatedAt := now)
    && store' == store[k := c]
  }

  const DELETED := "Complaint deleted successfully"

  /** `deleteComplaint`: NotFound for an unknown id; Forbidden when the
      request has a user id that is not strictly the record's `userId`;
      Forbidden when the request has an admin id and that admin is unknown
      or of another department; otherwise the record is removed. */
  function DeleteComplaint(store: Store, admins: AdminStore.Admins, id: Identity, param: string): (r: (Reply, Store))
    ensures r.0.NotFound? || r.0.Forbidden? || r.0.Deleted?
    ensures r.0.NotFound? <==> !HasId(store, ParseId(param))
    ensures !r.0.Deleted? ==> r.1 == store
    ensures HasId(store, ParseId(param)) ==>
      var c := FindById(store, ParseId(param)).value;
      (r.0.Forbidden? <==>
        || (IsUser(id) && c.fields.userId != TextId(id.userId.value))
        || (IsAdmin(id) && (AdminOf(admins, id.adminId.value).None?
                            || c.fields.department != AdminOf(admins, id.adminId.value).value.department)))
    ensures r.0.Forbidden? && IsUser(id) && FindById(store, ParseId(param)).value.fields.userId != TextId(id.userId.value)
      ==> r.0.error == DELETE_NOT_OWN
    ensures r.0.Deleted? ==> r.0.notice == DELETED
    ensures r.0.Deleted? ==> exists k :: FirstWithId(store, ParseId(param), k) && r.1 == store[..k] + store[k + 1..]
  {
    match FindById(store, ParseId(param))
    case None => (NotFound(COMPLAINT_NOT_FOUND), store)
    case Some(c) =>
      if IsUser(id) && c.fields.userId != TextId(id.userId.value) then (Forbidden(DELETE_NOT_OWN), store)
      else if IsAdmin(id) && (AdminOf(admins, id.adminId.value).None?
                              || c.fields.department != AdminOf(admins, id.adminId.value).value.department) then
        (Forbidden(DELETE_OTHER_DEPARTMENT), store)
      else
        (Deleted(DELETED), DeleteById(store, ParseId(param)).1)
  }

  function StatsFiltersFor(admins: AdminStore.Admins, id: Identity, department: Option<string>): ComplaintStats.StatsFilters
  {
    ComplaintStats.StatsFilters(DepartmentScope(admins, id, department), UserScope(id))
  }

  /** `getComplaintStats`: the statistics over the records in the same scope
      the listing uses. Each count is the number of listed complaints with
      that status or priority; a listed complaint without a status makes
      every count zero. */
  function GetComplaintStats(store: Store, admins: AdminStore.Admins, id: Identity, department: Option<string>): (r: Reply)
    ensures r.Statistics?
    ensures forall c :: c in ComplaintStats.Selected(store, StatsFiltersFor(admins, id, department)) <==>
      c in GetComplaints(store, admins, id, Query(department, None, None, None, None, None)).complaints
    ensures var listing := GetComplaints(store, admins, id, Query(department, None, None, None, None, None)).complaints;
      ComplaintStats.AllHaveStatus(listing) ==>
        && r.stats.total == |listing|
        && r.stats.pending == |Filter(listing, ComplaintStats.HasStatus("Pending"))|
        && r.stats.inProgress == |Filter(listing, ComplaintStats.HasStatus("In Progress"))|
        && r.stats.resolved == |Filter(listing, ComplaintStats.HasStatus("Resolved"))|
        && r.stats.rejected == |Filter(listing, ComplaintStats.HasStatus("Rejected"))|
        && r.stats.byPriority == ComplaintStats.PriorityCounts(
             |Filter(listing, ComplaintStats.HasPriority("Low"))|, |Filter(listing, ComplaintStats.HasPriority("Medium"))|,
             |Filter(listing, ComplaintStats.HasPriority("High"))|, |Filter(listing, ComplaintStats.HasPriority("Critical"))|)
    ensures var listing := GetComplaints(store, admins, id, Query(department, None, None, None, None, None)).complaints;
      !ComplaintStats.AllHaveStatus(listing) ==> r.stats == ComplaintStats.ZeroStats
  {
    var q := Query(department, None, None, None, None, None);
    var f := StatsFiltersFor(admins, id, department);
    assert forall c :: ComplaintStats.StatsMatch(f, c) == Matches(ListFilters(admins, id, q), c);
    StatsAgreeWithListing(store, admins, id, department);
    Statistics(ComplaintStats.GetStats(store, f))
  }

  /** The counts `getStats` computes over its selection are the counts over
      the listing in the same scope. */
  lemma StatsAgreeWithListing(store: Store, admins: AdminStore.Admins, id: Identity, department: Option<string>)
    ensures var st := ComplaintStats.GetStats(store, StatsFiltersFor(admins, id, department));
      var listing := GetComplaints(store, admins, id, Query(department, None, None, None, None, None)).complaints;
      && (!ComplaintStats.AllHaveStatus(listing) ==> st == ComplaintStats.ZeroStats)
      && (ComplaintStats.AllHaveStatus(listing) ==>
        && st.total == |listing|
        && st.pending == |Filter(listing, ComplaintStats.HasStatus("Pending"))|
        && st.inProgress == |Filter(listing, ComplaintStats.HasStatus("In Progress"))|
        && st.resolved == |Filter(listing, ComplaintStats.HasStatus("Resolved"))|
        && st.rejected == |Filter(listing, ComplaintStats.HasStatus("Rejected"))|
        && st.byPriority == ComplaintStats.PriorityCounts(
             |Filter(listing, ComplaintStats.HasPriority("Low"))|, |Filter(listing, ComplaintStats.HasPriority("Medium"))|,
             |Filter(listing, ComplaintStats.HasPriority("High"))|, |Filter(listing, ComplaintStats.HasPriority("Critical"))|))
  {
    var f := StatsFiltersFor(admins, id, department);
    var sel := ComplaintStats.Selected(store, f);
    var listing := GetComplaints(store, admins, id, Query(department, None, None, None, None, None)).complaints;
    assert listing == FindAll(store, ListFilters(admins, id, Query(department, None, None, None, None, None)));
    ListingPermutesSelection(store, admins, id, department);
    StatusPresenceAgrees(sel, listing);
    assert |sel| == |listing| by {
      assert |multiset(sel)| == |multiset(listing)|;
    }
    FilterLengthOfPermutation(sel, listing, ComplaintStats.HasStatus("Pending"));
    FilterLengthOfPermutation(sel, listing, ComplaintStats.HasStatus("In Progress"));
    FilterLengthOfPermutation(sel, listing, ComplaintStats.HasStatus("Resolved"));
    FilterLengthOfPermutation(sel, listing, ComplaintStats.HasStatus("Rejected"));
    FilterLengthOfPermutation(sel, listing, ComplaintStats.HasPriority("Low"));
    FilterLengthOfPermutation(sel, listing, ComplaintStats.HasPriority("Medium"));
    FilterLengthOfPermutation(sel, listing, ComplaintStats.HasPriority("High"));
    FilterLengthOfPermutation(sel, listing, ComplaintStats.HasPriority("Critical"));
  }

  /** The statistics select the listing's complaints, each as often. */
  lemma ListingPermutesSelection(store: Store, admins: AdminStore.Admins, id: Identity, department: Option<string>)
    ensures var q := Query(department, None, None, None, None, None);
      multiset(FindAll(store, ListFilters(admins, id, q))) == multiset(ComplaintStats.Selected(store, StatsFiltersFor(admins, id, department)))
  {
    var q := Query(department, None, None, None, None, None);
    var f := StatsFiltersFor(admins, id, department);
    var lf := ListFilters(admins, id, q);
    assert forall c :: ComplaintStats.StatsMatch(f, c) == Matches(lf, c);
    FilterCongruent(store, c => ComplaintStats.StatsMatch(f, c), c => Matches(lf, c));
    var sel := Filter(store, c => Matches(lf, c));
    var r := FindAll(store, lf);
    assert multiset(r) == multiset(sel) by {
      forall c ensures multiset(r)[c] == multiset(sel)[c] {
      }
    }
  }

  /** Two permutations of one another agree on whether every record has a
      status. */
  lemma StatusPresenceAgrees(a: seq<Complaint>, b: seq<Complaint>)
    requires multiset(a) == multiset(b)
    ensures ComplaintStats.AllHaveStatus(a) <==> ComplaintStats.AllHaveStatus(b)
  {
    StatusPresenceCarries(a, b);
    StatusPresenceCarries(b, a);
  }

  lemma StatusPresenceCarries(a: seq<Complaint>, b: seq<Complaint>)
    requires multiset(a) == multiset(b)
    ensures ComplaintStats.AllHaveStatus(b) ==> ComplaintStats.AllHaveStatus(a)
  {
    if ComplaintStats.AllHaveStatus(b) {
      forall i | 0 <= i < |a| ensures a[i].fields.status.Some? {
        assert a[i] in multiset(b);
        var j :| 0 <= j < |b| && b[j] == a[i];
      }
    }
  }

  /** `getUserComplaints`: the records whose numeric `userId` is the one the
      token carries, newest first. */
  function GetUserComplaints(store: Store, userId: string, q: Query): (r: Reply)
    ensures r.Many? && NewestFirst(r.complaints)
    ensures r.summary == FoundMessage(|r.complaints|, " of your complaints")
    ensures |userId| > 0 ==>
      forall c :: c in r.complaints <==> c in store && StatusPasses(q, c) && EqualsParsed(c.fields.userId, ParseId(userId))
    ensures forall c :: multiset(r.complaints)[c] ==
                        if StatusPasses(q, c) && (|userId| > 0 ==> EqualsParsed(c.fields.userId, ParseId(userId)))
                        then multiset(store)[c] else 0
  {
    var f := Filters(q.status, None, if |userId| > 0 then Some(ParseId(userId)) else None, None,
                     q.sentiment, q.search, q.limit, q.offset);
    var cs := FindAll(store, f);
    Many(cs, FoundMessage(|cs|, " of your complaints"))
  }

  /** `getDepartmentComplaints`: NotFound when the admin is unknown;
      otherwise the records of the admin's department, newest first. */
  function GetDepartmentComplaints(store: Store, admins: AdminStore.Admins, adminId: string, q: Query): (r: Reply)
    ensures r.NotFound? || r.Many?
    ensures r.NotFound? <==> AdminOf(admins, adminId).None?
    ensures r.NotFound? ==> r.error == ADMIN_NOT_FOUND
    ensures r.Many? ==> NewestFirst(r.complaints)
    ensures r.Many? ==> var d := AdminOf(admins, adminId).value.department;
      && r.summary == FoundMessage(|r.complaints|, " complaints for " + d)
      && (|d| > 0 ==> forall c :: c in r.complaints <==> c in store && StatusPasses(q, c) && c.fields.department == d)
      && (forall c :: multiset(r.complaints)[c] ==
            if StatusPasses(q, c) && (|d| > 0 ==> c.fields.department == d) then multiset(store)[c] else 0)
  {
    match AdminOf(admins, adminId)
    case None => NotFound(ADMIN_NOT_FOUND)
    case Some(a) =>
      var f := Filters(q.status, Some(a.department), None, None, q.sentiment, q.search, q.limit, q.offset);
      var cs := FindAll(store, f);
      Many(cs, FoundMessage(|cs|, " complaints for " + a.department))
  }

  // ---------------------------------------------------------------------------
  // Properties across handlers

  /** After a successful status update, reading the record back as the same
      admin yields the updated record, whose status is the one set. */
  lemma {:induction false} UpdateThenRead(store: Store, admins: AdminStore.Admins, adminId: string, param: string,
                                          status: string, now: nat)
    requires UpdateComplaint(store, admins, adminId, param, status, now).0.One?
    ensures var (r, store') := UpdateComplaint(store, admins, adminId, param, status, now);
      && r.complaint.fields.status == Some(status)
      && GetComplaint(store', admins, Identity(None, Some(adminId)), param) == One(r.complaint, None)
  {
    var (r, store') := UpdateComplaint(store, admins, adminId, param, status, now);
    var id := ParseId(param);
    var k :| FirstWithId(store, id, k) && StatusSetAt(store, k, status, now, r.complaint, store');
    FindByIdAt(store, id, k);
    FirstWithIdAfterReplace(store, id, k, r.complaint);
    FindByIdAt(store', id, k);
  }

  /** In a store where no two records share an id, a deleted record is
      gone: reading it back afterwards finds nothing, whoever asks. */
  lemma {:induction false} DeleteThenRead(store: Store, admins: AdminStore.Admins, id: Identity, param: string,
                                          other: Identity)
    requires IdsDistinct(store)
    requires DeleteComplaint(store, admins, id, param).0.Deleted?
    ensures GetComplaint(DeleteComplaint(store, admins, id, param).1, admins, other, param).NotFound?
  {
    var store' := DeleteComplaint(store, admins, id, param).1;
    var n := ParseId(param);
    var k :| FirstWithId(store, n, k) && store' == store[..k] + store[k + 1..];
    forall i | 0 <= i < |store'| ensures !IdMatches(store'[i], n) {
      if i < k { assert store'[i] == store[i]; } else { assert store'[i] == store[i + 1]; }
    }
  }

  /** A complaint a user files through the API can be read back by id by
      that user, since it is stored under the token's id as the same
      string, provided its id was not already taken. */
  lemma CreatedComplaintReadableByOwner(store: Store, users: UserStore.Users, admins: AdminStore.Admins,
                                        userId: string, body: NewComplaint, now: nat)
    requires |userId| > 0
    requires !HasId(store, IdNum(|store| + 1))
    ensures var (r, store') := CreateComplaint(store, users, userId, body, now);
      GetComplaint(store', admins, Identity(Some(userId), None), NatToString(r.complaint.id)) == One(r.complaint, None)
  {
    var (r, store') := CreateComplaint(store, users, userId, body, now);
    var n := |store| + 1;
    ParseIdOfNatToString(n);
    assert FirstWithId(store', IdNum(n), |store|) by {
      forall i | 0 <= i < |store| ensures !IdMatches(store'[i], IdNum(n)) {
        assert store'[i] == store[i];
      }
    }
    FindByIdAt(store', IdNum(n), |store|);
  }

  /** The same complaint never appears in its author's listings, where the
      stored id is compared with a number. */
  lemma CreatedComplaintNotListedForOwner(store: Store, users: UserStore.Users, admins: AdminStore.Admins,
                                          userId: string, body: NewComplaint, now: nat, q: Query)
    requires |userId| > 0
    ensures var (r, store') := CreateComplaint(store, users, userId, body, now);
      && r.complaint !in GetUserComplaints(store', userId, q).complaints
      && r.complaint !in GetComplaints(store', admins, Identity(Some(userId), None), q).complaints
  {
    var (r, store') := CreateComplaint(store, users, userId, body, now);
    assert !EqualsParsed(r.complaint.fields.userId, ParseId(userId));
    NotInUserListing(store', userId, r.complaint, q);
    NotInOwnListing(store', admins, userId, r.complaint, q);
  }

  /** A record whose owner does not equal the parsed user id is missing
      from that user's listings. */
  lemma NotInUserListing(store: Store, userId: string, c: Complaint, q: Query)
    requires |userId| > 0 && !EqualsParsed(c.fields.userId, ParseId(userId))
    ensures c !in GetUserComplaints(store, userId, q).complaints
  {
  }

  lemma NotInOwnListing(store: Store, admins: AdminStore.Admins, userId: string, c: Complaint, q: Query)
    requires |userId| > 0 && !EqualsParsed(c.fields.userId, ParseId(userId))
    ensures c !in GetComplaints(store, admins, Identity(Some(userId), None), q).complaints
  {
  }

  /** A complaint filed through the API carries no status, and a status-less
      record makes the statistics fall back to all zeros: once a user files
      one, every statistics request that covers it answers zeros. */
  lemma CreatedComplaintZeroesStats(store: Store, users: UserStore.Users, admins: AdminStore.Admins,
                                    userId: string, body: NewComplaint, now: nat, id: Identity, department: Option<string>)
    requires var c := CreateComplaint(store, users, userId, body, now).0.complaint;
      ComplaintStats.StatsMatch(StatsFiltersFor(admins, id, department), c)
    ensures var store' := CreateComplaint(store, users, userId, body, now).1;
      GetComplaintStats(store', admins, id, department) == Statistics(ComplaintStats.ZeroStats)
  {
    var (r, store') := CreateComplaint(store, users, userId, body, now);
    ComplaintStats.StatuslessRecordGivesZero(store', StatsFiltersFor(admins, id, department), r.complaint);
  }

  /** The admin token read by `requireAnyAuth` carries the user id "token"
      besides the admin id, so the user check runs first and refuses every
      record not stored under that string: an admin can neither read nor
      delete a user's complaint by id, even in the admin's own department. */
  lemma AdminTokenRefusedByUserCheck(store: Store, admins: AdminStore.Admins, adminId: string, now: nat, param: string)
    requires |adminId| > 0 && '_' !in adminId
    requires HasId(store, ParseId(param))
    requires FindById(store, ParseId(param)).value.fields.userId != TextId("token")
    ensures var g := RequireAnyAuth(Some(Token.BEARER + Token.GenerateAdminToken(adminId, now)));
      && g.Admit?
      && GetComplaint(store, admins, g.identity, param) == Forbidden(ACCESS_DENIED)
      && DeleteComplaint(store, admins, g.identity, param) == (Forbidden(DELETE_NOT_OWN), store)
  {
    AdminTokenIdentity(adminId, now);
  }

  /** A seeded complaint stores its owner as the number `n`, but the
      owner's token carries the text of `n`, and the ownership test
      compares the two with `!==`: user `n` is refused their own seeded
      complaint. In the seed, user 1 cannot read complaint 1. */
  lemma SeededOwnerCannotRead(store: Store, admins: AdminStore.Admins, n: nat, now: nat, param: string,
                               s1: Stamps, s2: Stamps, s3: Stamps)
    requires HasId(store, ParseId(param))
    requires FindById(store, ParseId(param)).value.fields.userId == NumberId(n)
    ensures var g := RequireAnyAuth(Some(Token.BEARER + Token.GenerateUserToken(NatToString(n), now)));
      && g == Admit(Identity(Some(NatToString(n)), None))
      && GetComplaint(store, admins, g.identity, param) == Forbidden(ACCESS_DENIED)
    ensures GetComplaint(ComplaintSeed.Seed(s1, s2, s3), admins, Identity(Some("1"), None), "1") == Forbidden(ACCESS_DENIED)
  {
    Token.NoSeparatorInNumber(n);
    UserTokenIdentity(NatToString(n), now);
    NumericOwnerRefused(store, admins, NatToString(n), param, n);
    SeedComplaintOneIsUserOnes(s1, s2, s3);
    NumericOwnerRefused(ComplaintSeed.Seed(s1, s2, s3), admins, "1", "1", 1);
  }

  /** A signed-in user is refused any record whose owner is stored as a
      number, since the token's user id is text. */
  lemma NumericOwnerRefused(store: Store, admins: AdminStore.Admins, userId: string, param: string, n: nat)
    requires |userId| > 0
    requires HasId(store, ParseId(param))
    requires FindById(store, ParseId(param)).value.fields.userId == NumberId(n)
    ensures GetComplaint(store, admins, Identity(Some(userId), None), param) == Forbidden(ACCESS_DENIED)
  {
  }

  lemma SeedComplaintOneIsUserOnes(s1: Stamps, s2: Stamps, s3: Stamps)
    ensures HasId(ComplaintSeed.Seed(s1, s2, s3), ParseId("1"))
    ensures FindById(ComplaintSeed.Seed(s1, s2, s3), ParseId("1")).value.fields.userId == NumberId(1)
  {
    ParseIdOfNatToString(1);
    assert NatToString(1) == "1";
    var s := ComplaintSeed.Seed(s1, s2, s3);
    FindByIdAt(s, IdNum(1), 0);
  }

  /** An admin id that names no admin is let through by the read check but
      refused by the update and delete checks. */
  lemma UnknownAdminReadsButCannotChange(store: Store, admins: AdminStore.Admins, adminId: string, param: string,
                                         status: string, now: nat)
    requires |adminId| > 0 && AdminOf(admins, adminId).None?
    requires HasId(store, ParseId(param))
    ensures GetComplaint(store, admins, Identity(None, Some(adminId)), param).One?
    ensures UpdateComplaint(store, admins, adminId, param, status, now) == (Forbidden(UPDATE_OTHER_DEPARTMENT), store)
    ensures DeleteComplaint(store, admins, Identity(None, Some(adminId)), param) == (Forbidden(DELETE_OTHER_DEPARTMENT), store)
  {
  }

  /** The department in the query is not checked against the admin's own:
      any admin that is authenticated lists the complaints of whatever
      department the query names. */
  lemma AdminListsAnyDepartment(store: Store, admins: AdminStore.Admins, adminId: string, q: Query)
    requires |adminId| > 0 && SharedApi.IsTruthy(q.department)
    ensures forall c :: c in GetComplaints(store, admins, Identity(None, Some(adminId)), q).complaints <==>
      c in store && StatusPasses(q, c) && c.fields.department == q.department.value
  {
  }

  /** When every record in scope has a status, the statistics total is the
      number of records the listing returns for the same request. */
  lemma StatsTotalMatchesListing(store: Store, admins: AdminStore.Admins, id: Identity, department: Option<string>)
    requires ComplaintStats.AllHaveStatus(ComplaintStats.Selected(store, StatsFiltersFor(admins, id, department)))
    ensures GetComplaintStats(store, admins, id, department).stats.total
         == |GetComplaints(store, admins, id, Query(department, None, None, None, None, None)).complaints|
  {
    var q := Query(department, None, None, None, None, None);
    var f := StatsFiltersFor(admins, id, department);
    var sel := ComplaintStats.Selected(store, f);
    var lf := ListFilters(admins, id, q);
    assert forall c :: ComplaintStats.StatsMatch(f, c) == Matches(lf, c);
    FilterCongruent(store, c => ComplaintStats.StatsMatch(f, c), c => Matches(lf, c));
    FindAllLength(store, lf);
  }
}
