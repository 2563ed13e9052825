/**
  The view logic of the admin dashboard: the complaints of the signed-in
  admin's department, the search and drop-down filters over them, the
  local status update, the clear-filters reset and the summary counts.
 */
module AdminDashboard {
  import opened Common
  import opened Strings
  import AdminContext

  /** A complaint as the dashboard holds it. */
  datatype Card = Card(
    id: string, text: string, image: Option<string>, category: string, department: string,
    departmentEmail: string, status: string, sentiment: string, submittedAt: string, submittedBy: string)

  /** The search term and the two drop-down selections. */
  datatype View = View(searchTerm: string, statusFilter: string, sentimentFilter: string)

  const ALL_STATUS := "All Status"
  const ALL_PRIORITY := "All Priority"

  /** The view the page starts with and Clear Filters returns to. */
  const CLEARED := View("", ALL_STATUS, ALL_PRIORITY)

  /** The Clear Filters button: every filter back to its wildcard. */
  function ClearFilters(v: View): (r: View)
    ensures r.searchTerm == "" && r.statusFilter == ALL_STATUS && r.sentimentFilter == ALL_PRIORITY
  {
    CLEARED
  }

  /** `departmentComplaints`: nothing without a signed-in admin, otherwise
      the complaints of the admin's department in their original order. */
  function DepartmentComplaints(cs: seq<Card>, admin: Option<AdminContext.SessionAdmin>): (r: seq<Card>)
    ensures admin.None? ==> r == []
    ensures admin.Some? ==> forall c :: c in r <==> c in cs && c.department == admin.value.department
    ensures admin.Some? ==> forall c :: multiset(r)[c] == if c.department == admin.value.department then multiset(cs)[c] else 0
    ensures IsSubsequence(r, cs)
  {
    if admin.None? then []
    else Filter(cs, (c: Card) => c.department == admin.value.department)
  }

  /** The search term, lower-cased, occurs in the lower-cased text, category
      or author of `c`. */
  predicate SearchMatch(c: Card, term: string)
  {
    var t := Lower(term);
    Contains(Lower(c.text), t) || Contains(Lower(c.category), t) || Contains(Lower(c.submittedBy), t)
  }

  /** `c` passes the search and both drop-downs; a drop-down on its wildcard
      passes everything. */
  predicate Passes(v: View, c: Card)
  {
    && SearchMatch(c, v.searchTerm)
    && (v.statusFilter == ALL_STATUS || c.status == v.statusFilter)
    && (v.sentimentFilter == ALL_PRIORITY || c.sentiment == v.sentimentFilter)
  }

  /** `filteredComplaints`: the department's complaints that pass the view,
      in their order. */
  function FilteredComplaints(dept: seq<Card>, v: View): (r: seq<Card>)
    ensures forall c :: c in r <==> c in dept && Passes(v, c)
    ensures forall c :: multiset(r)[c] == if Passes(v, c) then multiset(dept)[c] else 0
    ensures IsSubsequence(r, dept)
  {
    Filter(dept, (c: Card) => Passes(v, c))
  }

  /** Search ignores the case of the term. */
  lemma SearchIgnoresCase(c: Card, term: string)
    ensures SearchMatch(c, Lower(term)) <==> SearchMatch(c, term)
  {
    LowerIdempotent(term);
  }

  /** An empty search term matches every complaint. */
  lemma EmptySearchMatchesAll(c: Card)
    ensures SearchMatch(c, "")
  {
    assert Lower("") == "";
    ContainsEmpty(Lower(c.text));
  }

  /** After Clear Filters the filtered list is the department's list. */
  lemma ClearedViewShowsDepartment(dept: seq<Card>, v: View)
    ensures FilteredComplaints(dept, ClearFilters(v)) == dept
  {
    forall i | 0 <= i < |dept| ensures Passes(CLEARED, dept[i]) {
      EmptySearchMatchesAll(dept[i]);
    }
    FilterKeepsAll(dept, (c: Card) => Passes(CLEARED, c));
  }

  /** `handleStatusUpdate`: every complaint with that id gets the new
      status. */
  function HandleStatusUpdate(cs: seq<Card>, id: string, status: string): (r: seq<Card>)
    ensures |r| == |cs|
    ensures forall i :: 0 <= i < |cs| && cs[i].id != id ==> r[i] == cs[i]
    ensures forall i :: 0 <= i < |cs| && cs[i].id == id ==> r[i].status == status
  {
    seq(|cs|, i requires 0 <= i < |cs| => if cs[i].id == id then cs[i].(status := status) else cs[i])
  }

  /** The update touches only the status: every record keeps its id,
      position and every other field, and applying it twice is applying it
      once. */
  lemma StatusUpdateChangesOnlyStatus(cs: seq<Card>, id: string, status: string)
    ensures var r := HandleStatusUpdate(cs, id, status);
      forall i :: 0 <= i < |cs| ==> r[i].(status := cs[i].status) == cs[i]
    ensures HandleStatusUpdate(HandleStatusUpdate(cs, id, status), id, status) == HandleStatusUpdate(cs, id, status)
  {
  }

  /** Since departments do not change, the department list keeps its
      length across an update. */
  lemma StatusUpdateKeepsDepartmentList(cs: seq<Card>, id: string, status: string, admin: Option<AdminContext.SessionAdmin>)
    ensures |DepartmentComplaints(HandleStatusUpdate(cs, id, status), admin)| == |DepartmentComplaints(cs, admin)|
  {
    if admin.Some? {
      var r := HandleStatusUpdate(cs, id, status);
      FilterLengthPointwise(r, cs, (c: Card) => c.department == admin.value.department);
    }
  }

  // ---------------------------------------------------------------------------
  // Summary counts

  /** `c => c.status === s`. */
  function HasStatus(s: string): Card -> bool
  {
    (c: Card) => c.status == s
  }

  /** `c => c.sentiment === s`. */
  function HasSentiment(s: string): Card -> bool
  {
    (c: Card) => c.sentiment == s
  }

  /** `filter(c => c.status === s).length`, counted card by card. */
  function CountStatus(cs: seq<Card>, s: string): nat
  {
    if |cs| == 0 then 0 else (if cs[0].status == s then 1 else 0) + CountStatus(cs[1..], s)
  }

  /** `filter(c => c.sentiment === s).length`, counted card by card. */
  function CountSentiment(cs: seq<Card>, s: string): nat
  {
    if |cs| == 0 then 0 else (if cs[0].sentiment == s then 1 else 0) + CountSentiment(cs[1..], s)
  }

  /** Counting card by card agrees with the length of the filtered list. */
  lemma {:induction false} CountStatusIsFilterLength(cs: seq<Card>, s: string)
    ensures CountStatus(cs, s) == |Filter(cs, HasStatus(s))|
  {
    if |cs| > 0 {
      CountStatusIsFilterLength(cs[1..], s);
    }
  }

  lemma {:induction false} CountSentimentIsFilterLength(cs: seq<Card>, s: string)
    ensures CountSentiment(cs, s) == |Filter(cs, HasSentiment(s))|
  {
    if |cs| > 0 {
      CountSentimentIsFilterLength(cs[1..], s);
    }
  }

  const PENDING := "Pending"
  const IN_PROGRESS := "In Progress"
  const RESOLVED := "Resolved"
  const HIGH := "High"

  datatype DashboardStats = DashboardStats(total: nat, pending: nat, inProgress: nat, resolved: nat, high: nat)

  predicate AmongThree(c: Card)
  {
    c.status == PENDING || c.status == IN_PROGRESS || c.status == RESOLVED
  }

  /** `getStats`: counts over the department's complaints, whatever the
      view's filters are. */
  function GetStats(cs: seq<Card>, admin: Option<AdminContext.SessionAdmin>): (r: DashboardStats)
    ensures r.total == |DepartmentComplaints(cs, admin)|
    ensures r.pending == |Filter(DepartmentComplaints(cs, admin), HasStatus(PENDING))|
    ensures r.inProgress == |Filter(DepartmentComplaints(cs, admin), HasStatus(IN_PROGRESS))|
    ensures r.resolved == |Filter(DepartmentComplaints(cs, admin), HasStatus(RESOLVED))|
    ensures r.high == |Filter(DepartmentComplaints(cs, admin), HasSentiment(HIGH))|
    ensures r.pending + r.inProgress + r.resolved <= r.total && r.high <= r.total
    ensures (forall c :: c in DepartmentComplaints(cs, admin) ==> AmongThree(c)) ==>
      r.pending + r.inProgress + r.resolved == r.total
  {
    var d := DepartmentComplaints(cs, admin);
    StatusCountsBounded(d);
    SentimentCountBounded(d, HIGH);
    CountStatusIsFilterLength(d, PENDING);
    CountStatusIsFilterLength(d, IN_PROGRESS);
    CountStatusIsFilterLength(d, RESOLVED);
    CountSentimentIsFilterLength(d, HIGH);
    DashboardStats(|d|, CountStatus(d, PENDING), CountStatus(d, IN_PROGRESS), CountStatus(d, RESOLVED), CountSentiment(d, HIGH))
  }

  /** The three status counts never exceed the length, and reach it exactly
      when every status is one of the three. */
  lemma {:induction false} StatusCountsBounded(cs: seq<Card>)
    ensures CountStatus(cs, PENDING) + CountStatus(cs, IN_PROGRESS) + CountStatus(cs, RESOLVED) <= |cs|
    ensures (forall c :: c in cs ==> AmongThree(c)) ==>
      CountStatus(cs, PENDING) + CountStatus(cs, IN_PROGRESS) + CountStatus(cs, RESOLVED) == |cs|
  {
    if |cs| > 0 {
      var tail := cs[1..];
      StatusCountsBounded(tail);
      assert PENDING[0] != IN_PROGRESS[0] && PENDING[0] != RESOLVED[0] && IN_PROGRESS[0] != RESOLVED[0];
      if forall c :: c in cs ==> AmongThree(c) {
        assert cs[0] in cs;
        assert forall c :: c in tail ==> c in cs;
      }
    }
  }

  lemma {:induction false} SentimentCountBounded(cs: seq<Card>, s: string)
    ensures CountSentiment(cs, s) <= |cs|
  {
    if |cs| > 0 {
      SentimentCountBounded(cs[1..], s);
    }
  }

  /** The counts ignore the view: narrowing the list on screen never
      changes them, while the filtered list can be shorter than the
      total. */
  lemma StatsIgnoreView(cs: seq<Card>, admin: Option<AdminContext.SessionAdmin>, v: View)
    ensures |FilteredComplaints(DepartmentComplaints(cs, admin), v)| <= GetStats(cs, admin).total
  {
  }
}
