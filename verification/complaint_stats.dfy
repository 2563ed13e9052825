/**
  `ComplaintModel.getStats` of the in-memory store: overall status counts,
  per-priority counts and a per-department breakdown built by a `forEach`
  that increments object slots, with JavaScript's `undefined` and `NaN`
  made explicit.
 */
module ComplaintStats {
  import opened Common
  import opened Strings
  import SharedApi
  import opened ComplaintStore

  /** A JavaScript number slot of a per-department entry: missing
      (`undefined`), a count, or `NaN` (what `undefined++` produces). */
  datatype Counter = Undefined | Num(n: nat) | NaN

  /** The `++` operator. */
  function Inc(c: Counter): Counter
  {
    match c
    case Num(n) => Num(n + 1)
    case _ => NaN
  }

  /** `k` applications of `++`. */
  function IncBy(c: Counter, k: nat): Counter
    decreases k
  {
    if k == 0 then c else IncBy(Inc(c), k - 1)
  }

  /** `++` on a number counts; on a missing slot it yields `NaN`, and `NaN`
      is absorbing. */
  lemma {:induction false} IncByClosedForm(c: Counter, k: nat)
    ensures c.Num? ==> IncBy(c, k) == Num(c.n + k)
    ensures !c.Num? && k > 0 ==> IncBy(c, k) == NaN
    ensures k == 0 ==> IncBy(c, k) == c
    decreases k
  {
    if k > 0 {
      IncByClosedForm(Inc(c), k - 1);
    }
  }

  lemma {:induction false} IncByAdds(c: Counter, a: nat, b: nat)
    ensures IncBy(IncBy(c, a), b) == IncBy(c, a + b)
    decreases a
  {
    if a > 0 {
      IncByAdds(Inc(c), a - 1, b);
    }
  }

  type DeptEntry = map<string, Counter>

  function Slot(e: DeptEntry, key: string): Counter
  {
    if key in e then e[key] else Undefined
  }

  /** `entry[key]++`. */
  function Bump(e: DeptEntry, key: string): DeptEntry
  {
    e[key := Inc(Slot(e, key))]
  }

  const ZeroEntry: DeptEntry := map["total" := Num(0), "pending" := Num(0), "inProgress" := Num(0),
                                     "resolved" := Num(0), "rejected" := Num(0)]

  /** The slot a status increments: `status.toLowerCase().replace(' ', '')`. */
  function StatusKey(status: string): string
  {
    RemoveFirst(Lower(status), ' ')
  }

  datatype PriorityCounts = PriorityCounts(low: nat, medium: nat, high: nat, critical: nat)

  datatype Stats = Stats(
    total: nat, pending: nat, inProgress: nat, resolved: nat, rejected: nat,
    byDepartment: map<string, DeptEntry>, byPriority: PriorityCounts)

  /** What the error path of `getStats` returns. */
  const ZeroStats := Stats(0, 0, 0, 0, 0, map[], PriorityCounts(0, 0, 0, 0))

  /** The filters `getStats` consults; `userId` is present when a non-empty
      string was given, and holds what `parseInt` makes of it. */
  datatype StatsFilters = StatsFilters(department: Option<string>, userId: Option<IdArg>)

  predicate StatsMatch(f: StatsFilters, c: Complaint)
  {
    && (SharedApi.IsTruthy(f.department) ==> c.fields.department == f.department.value)
    && (f.userId.Some? ==> EqualsParsed(c.fields.userId, f.userId.value))
  }

  /** The records `getStats` aggregates over, in store order. */
  function Selected(store: Store, f: StatsFilters): (r: seq<Complaint>)
    ensures forall c :: c in r <==> c in store && StatsMatch(f, c)
  {
    Filter(store, c => StatsMatch(f, c))
  }

  /** `c => c.status === s`. */
  function HasStatus(s: string): Complaint -> bool
  {
    (c: Complaint) => c.fields.status == Some(s)
  }

  /** `c => c.priority === p`. */
  function HasPriority(p: string): Complaint -> bool
  {
    (c: Complaint) => c.fields.priority == Some(p)
  }

  /** A record of department `d` whose status is `s`. */
  function InDepartmentWithStatus(d: string, s: string): Complaint -> bool
  {
    (c: Complaint) => c.fields.department == d && c.fields.status == Some(s)
  }

  /** `cs.filter(c => c.status === s).length`, counted record by record. */
  function StatusCount(cs: seq<Complaint>, s: string): nat
  {
    if |cs| == 0 then 0 else (if cs[0].fields.status == Some(s) then 1 else 0) + StatusCount(cs[1..], s)
  }

  /** `cs.filter(c => c.priority === p).length`, counted record by record. */
  function PriorityCount(cs: seq<Complaint>, p: string): nat
  {
    if |cs| == 0 then 0 else (if cs[0].fields.priority == Some(p) then 1 else 0) + PriorityCount(cs[1..], p)
  }

  /** Counting record by record agrees with the length of the filtered list. */
  lemma {:induction false} StatusCountIsFilterLength(cs: seq<Complaint>, s: string)
    ensures StatusCount(cs, s) == |Filter(cs, HasStatus(s))|
  {
    if |cs| > 0 {
      StatusCountIsFilterLength(cs[1..], s);
    }
  }

  lemma {:induction false} PriorityCountIsFilterLength(cs: seq<Complaint>, p: string)
    ensures PriorityCount(cs, p) == |Filter(cs, HasPriority(p))|
  {
    if |cs| > 0 {
      PriorityCountIsFilterLength(cs[1..], p);
    }
  }

  predicate AllHaveStatus(cs: seq<Complaint>)
  {
    forall i :: 0 <= i < |cs| ==> cs[i].fields.status.Some?
  }

  function Departments(cs: seq<Complaint>): (r: seq<string>)
    ensures |r| == |cs|
    ensures forall i :: 0 <= i < |cs| ==> r[i] == cs[i].fields.department
  {
    seq(|cs|, i requires 0 <= i < |cs| => cs[i].fields.department)
  }

  /** What one iteration of the grouping loop looks at: the record's
      department and the slot its status increments. */
  datatype Tick = Tick(department: string, key: string)

  function Ticks(cs: seq<Complaint>): (ts: seq<Tick>)
    requires AllHaveStatus(cs)
    ensures |ts| == |cs|
    ensures forall i :: 0 <= i < |cs| ==>
      ts[i] == Tick(cs[i].fields.department, StatusKey(cs[i].fields.status.value))
  {
    seq(|cs|, i requires 0 <= i < |cs| => Tick(cs[i].fields.department, StatusKey(cs[i].fields.status.value)))
  }

  function TickDepartments(ts: seq<Tick>): (r: seq<string>)
    ensures |r| == |ts|
    ensures forall i :: 0 <= i < |ts| ==> r[i] == ts[i].department
  {
    seq(|ts|, i requires 0 <= i < |ts| => ts[i].department)
  }

  /** The entry a department has before the rest of the loop runs. */
  function Start(acc: map<string, DeptEntry>, d: string): DeptEntry
  {
    if d in acc then acc[d] else ZeroEntry
  }

  /** One iteration: create the entry if missing, then `total++` and
      `[key]++`. */
  function Tally(acc: map<string, DeptEntry>, t: Tick): map<string, DeptEntry>
  {
    acc[t.department := Bump(Bump(Start(acc, t.department), "total"), t.key)]
  }

  /** The grouping loop, in list order. */
  function Group(acc: map<string, DeptEntry>, ts: seq<Tick>): map<string, DeptEntry>
    decreases |ts|
  {
    if |ts| == 0 then acc else Group(Tally(acc, ts[0]), ts[1..])
  }

  /** `getStats`: counts over the records passing the department and user
      filters. A record without a status makes `toLowerCase` throw inside the
      grouping loop, and the error path then returns all-zero statistics. */
  function GetStats(store: Store, f: StatsFilters): (r: Stats)
    ensures !AllHaveStatus(Selected(store, f)) ==> r == ZeroStats
    ensures AllHaveStatus(Selected(store, f)) ==>
      && r.total == |Selected(store, f)|
      && r.pending == |Filter(Selected(store, f), HasStatus("Pending"))|
      && r.inProgress == |Filter(Selected(store, f), HasStatus("In Progress"))|
      && r.resolved == |Filter(Selected(store, f), HasStatus("Resolved"))|
      && r.rejected == |Filter(Selected(store, f), HasStatus("Rejected"))|
      && r.byPriority == PriorityCounts(|Filter(Selected(store, f), HasPriority("Low"))|,
                                        |Filter(Selected(store, f), HasPriority("Medium"))|,
                                        |Filter(Selected(store, f), HasPriority("High"))|,
                                        |Filter(Selected(store, f), HasPriority("Critical"))|)
      && (forall d :: d in r.byDepartment <==> d in Departments(Selected(store, f)))
  {
    var cs := Selected(store, f);
    if !AllHaveStatus(cs) then ZeroStats
    else
      var ts := Ticks(cs);
      var byDept := Group(map[], ts);
      assert TickDepartments(ts) == Departments(cs);
      forall d ensures d in byDept <==> d in Departments(cs) {
        GroupSlots(map[], ts, d, "total");
      }
      StatusCountIsFilterLength(cs, "Pending");
      StatusCountIsFilterLength(cs, "In Progress");
      StatusCountIsFilterLength(cs, "Resolved");
      StatusCountIsFilterLength(cs, "Rejected");
      PriorityCountIsFilterLength(cs, "Low");
      PriorityCountIsFilterLength(cs, "Medium");
      PriorityCountIsFilterLength(cs, "High");
      PriorityCountIsFilterLength(cs, "Critical");
      Stats(|cs|, StatusCount(cs, "Pending"), StatusCount(cs, "In Progress"),
            StatusCount(cs, "Resolved"), StatusCount(cs, "Rejected"),
            byDept,
            PriorityCounts(PriorityCount(cs, "Low"), PriorityCount(cs, "Medium"),
                           PriorityCount(cs, "High"), PriorityCount(cs, "Critical")))
  }

  /** One selected record without a status is enough to make the whole
      result the all-zero fallback. */
  lemma StatuslessRecordGivesZero(store: Store, f: StatsFilters, c: Complaint)
    requires c in store && StatsMatch(f, c) && c.fields.status.None?
    ensures GetStats(store, f) == ZeroStats
  {
    var sel := Selected(store, f);
    assert c in sel;
    var i :| 0 <= i < |sel| && sel[i] == c;
  }

  /** How many times the loop over `ts` increments slot `key` of the entry
      for department `d`: once per tick of `d` for "total", and once per
      tick of `d` carrying `key`. */
  function Hits(ts: seq<Tick>, d: string, key: string): nat
  {
    if |ts| == 0 then 0 else TickHits(ts[0], d, key) + Hits(ts[1..], d, key)
  }

  function TickHits(t: Tick, d: string, key: string): nat
  {
    if t.department == d
    then (if key == "total" then 1 else 0) + (if t.key == key then 1 else 0)
    else 0
  }

  /** One iteration adds its hits to the slot of its own department and
      leaves every other department's entry alone. */
  lemma TallySlot(acc: map<string, DeptEntry>, t: Tick, d: string, key: string)
    ensures d in Tally(acc, t) <==> d in acc || d == t.department
    ensures Slot(Start(Tally(acc, t), d), key) == IncBy(Slot(Start(acc, d), key), TickHits(t, d, key))
  {
    var e := Start(acc, d);
    if t.department == d {
      var e1 := Bump(e, "total");
      var a := if key == "total" then 1 else 0;
      var b := if t.key == key then 1 else 0;
      assert Slot(e1, key) == IncBy(Slot(e, key), a);
      assert Slot(Bump(e1, t.key), key) == IncBy(Slot(e1, key), b);
      IncByAdds(Slot(e, key), a, b);
    }
  }

  /** The grouping loop, slot by slot: a department gets an entry exactly
      when one of its records is seen, and each slot ends up incremented once
      per hit. */
  lemma GroupSlots(acc: map<string, DeptEntry>, ts: seq<Tick>, d: string, key: string)
    ensures d in Group(acc, ts) <==> d in acc || d in TickDepartments(ts)
    ensures d in Group(acc, ts) ==>
      Slot(Group(acc, ts)[d], key) == IncBy(Slot(Start(acc, d), key), Hits(ts, d, key))
  {
    GroupKeys(acc, ts, d);
    GroupStartSlot(acc, ts, d, key);
  }

  lemma {:induction false} GroupKeys(acc: map<string, DeptEntry>, ts: seq<Tick>, d: string)
    ensures d in Group(acc, ts) <==> d in acc || d in TickDepartments(ts)
    decreases |ts|
  {
    if |ts| > 0 {
      var t := ts[0];
      assert Group(acc, ts) == Group(Tally(acc, t), ts[1..]);
      assert TickDepartments(ts) == [t.department] + TickDepartments(ts[1..]);
      GroupKeys(Tally(acc, t), ts[1..], d);
    }
  }

  lemma {:induction false} GroupStartSlot(acc: map<string, DeptEntry>, ts: seq<Tick>, d: string, key: string)
    ensures Slot(Start(Group(acc, ts), d), key) == IncBy(Slot(Start(acc, d), key), Hits(ts, d, key))
    decreases |ts|
  {
    if |ts| > 0 {
      var t := ts[0];
      var acc' := Tally(acc, t);
      assert Group(acc, ts) == Group(acc', ts[1..]);
      assert Hits(ts, d, key) == TickHits(t, d, key) + Hits(ts[1..], d, key);
      GroupStartSlot(acc', ts[1..], d, key);
      TallySlot(acc, t, d, key);
      IncByAdds(Slot(Start(acc, d), key), TickHits(t, d, key), Hits(ts[1..], d, key));
    }
  }

  /** One of the four values of the status column's enumeration. */
  predicate IsEnumStatus(s: Option<string>)
  {
    s == Some("Pending") || s == Some("In Progress") || s == Some("Resolved") || s == Some("Rejected")
  }

  predicate AllEnumStatuses(cs: seq<Complaint>)
  {
    forall i :: 0 <= i < |cs| ==> IsEnumStatus(cs[i].fields.status)
  }

  /** The slot each enumerated status increments, tabulated. */
  function EnumKey(s: Option<string>): string
  {
    if s == Some("Pending") then "pending"
    else if s == Some("In Progress") then "inprogress"
    else if s == Some("Resolved") then "resolved"
    else "rejected"
  }

  /** The key computed from an enumerated status is the tabulated one: all
      lower case, so 'In Progress' lands in a slot `inprogress` that the
      initial entry does not have. */
  lemma EnumStatusKey(s: Option<string>)
    requires IsEnumStatus(s)
    ensures StatusKey(s.value) == EnumKey(s)
  {
    if s == Some("Pending") {
      PendingKey();
    } else if s == Some("In Progress") {
      InProgressKey();
    } else if s == Some("Resolved") {
      ResolvedKey();
    } else {
      RejectedKey();
    }
  }

  lemma PendingKey()
    ensures StatusKey("Pending") == "pending"
  {
    KeyWithoutSpace("Pending", "pending");
  }

  lemma ResolvedKey()
    ensures StatusKey("Resolved") == "resolved"
  {
    KeyWithoutSpace("Resolved", "resolved");
  }

  lemma RejectedKey()
    ensures StatusKey("Rejected") == "rejected"
  {
    KeyWithoutSpace("Rejected", "rejected");
  }

  lemma InProgressKey()
    ensures StatusKey("In Progress") == "inprogress"
  {
    LowerInProgress();
    RemoveInnerSpace(Lower("In Progress"));
  }

  lemma LowerInProgress()
    ensures Lower("In Progress") == "in progress"
  {
  }

  lemma RemoveInnerSpace(l: string)
    requires l == "in progress"
    ensures RemoveFirst(l, ' ') == "inprogress"
  {
    RemoveFirstAt(l, ' ', 2);
    JoinAroundSpace(l);
  }

  lemma JoinAroundSpace(l: string)
    requires l == "in progress"
    ensures l[..2] + l[3..] == "inprogress"
  {
  }

  lemma KeyWithoutSpace(status: string, lower: string)
    requires Lower(status) == lower && ' ' !in lower
    ensures StatusKey(status) == lower
  {
  }

  /** For enumerated statuses the loop's keys are the tabulated ones. */
  lemma TicksOfEnumStatuses(cs: seq<Complaint>)
    requires AllEnumStatuses(cs)
    ensures AllHaveStatus(cs)
    ensures forall i :: 0 <= i < |cs| ==> Ticks(cs)[i].key == EnumKey(cs[i].fields.status)
  {
    forall i | 0 <= i < |cs| ensures Ticks(cs)[i].key == EnumKey(cs[i].fields.status) {
      EnumStatusKey(cs[i].fields.status);
    }
  }

  predicate IsEnumKey(k: string)
  {
    k == "pending" || k == "inprogress" || k == "resolved" || k == "rejected"
  }

  /** No enumerated key names the "total" slot or the camel-case
      "inProgress" slot. */
  lemma EnumKeysMissOtherSlots(k: string)
    requires IsEnumKey(k)
    ensures k != "total" && k != "inProgress"
  {
    assert "inProgress"[2] != "inprogress"[2];
  }

  /** With enumerated keys the "total" slot is hit once per tick of the
      department and the camel-case "inProgress" slot never. */
  lemma {:induction false} EnumKeyHits(ts: seq<Tick>, d: string)
    requires forall i :: 0 <= i < |ts| ==> IsEnumKey(ts[i].key)
    ensures Hits(ts, d, "total") == multiset(TickDepartments(ts))[d]
    ensures Hits(ts, d, "inProgress") == 0
  {
    if |ts| > 0 {
      EnumKeyHits(ts[1..], d);
      EnumKeysMissOtherSlots(ts[0].key);
      assert TickDepartments(ts) == [ts[0].department] + TickDepartments(ts[1..]);
    }
  }

  /** A slot other than "total" is hit at least once exactly when some tick
      of the department carries its key. */
  lemma {:induction false} HitsPositive(ts: seq<Tick>, d: string, key: string)
    requires key != "total"
    ensures Hits(ts, d, key) > 0 <==> exists i :: 0 <= i < |ts| && ts[i] == Tick(d, key)
  {
    if |ts| > 0 {
      HitsPositive(ts[1..], d, key);
      if exists i :: 0 <= i < |ts| - 1 && ts[1..][i] == Tick(d, key) {
        var i :| 0 <= i < |ts| - 1 && ts[1..][i] == Tick(d, key);
        assert ts[i + 1] == Tick(d, key);
      }
      if exists i :: 0 <= i < |ts| && ts[i] == Tick(d, key) {
        var i :| 0 <= i < |ts| && ts[i] == Tick(d, key);
        if i > 0 {
          assert ts[1..][i - 1] == Tick(d, key);
        }
      }
    }
  }

  /** The ticks of records with enumerated statuses, with the facts about
      them the entry lemmas share. */
  lemma EnumTicks(store: Store, f: StatsFilters)
    requires AllEnumStatuses(Selected(store, f))
    ensures AllHaveStatus(Selected(store, f))
    ensures var ts := Ticks(Selected(store, f));
            && TickDepartments(ts) == Departments(Selected(store, f))
            && (forall i :: 0 <= i < |ts| ==> IsEnumKey(ts[i].key))
            && GetStats(store, f).byDepartment == Group(map[], ts)
  {
    var cs := Selected(store, f);
    TicksOfEnumStatuses(cs);
    var ts := Ticks(cs);
    assert TickDepartments(ts) == Departments(cs);
    forall i | 0 <= i < |ts| ensures IsEnumKey(ts[i].key) {
      assert ts[i].key == EnumKey(cs[i].fields.status);
    }
    assert GetStats(store, f).byDepartment == Group(map[], ts);
  }

  lemma ZeroEntrySlots()
    ensures Slot(ZeroEntry, "total") == Num(0)
    ensures Slot(ZeroEntry, "inProgress") == Num(0)
    ensures Slot(ZeroEntry, "inprogress") == Undefined
  {
    assert "inprogress" != "inProgress" by {
      assert "inprogress"[2] != "inProgress"[2];
    }
  }

  /** Grouping ticks with enumerated keys from scratch: each department's
      "total" counts its ticks, its "inProgress" stays 0, and its stray
      "inprogress" is `NaN` when hit and missing otherwise. */
  lemma {:induction false} GroupEnumTicks(ts: seq<Tick>, d: string)
    requires forall i :: 0 <= i < |ts| ==> IsEnumKey(ts[i].key)
    ensures var g := Group(map[], ts);
            d in g ==>
              && Slot(g[d], "total") == Num(multiset(TickDepartments(ts))[d])
              && Slot(g[d], "inProgress") == Num(0)
              && (Slot(g[d], "inprogress") == if Hits(ts, d, "inprogress") > 0 then NaN else Undefined)
  {
    GroupSlots(map[], ts, d, "total");
    GroupSlots(map[], ts, d, "inProgress");
    GroupSlots(map[], ts, d, "inprogress");
    EnumKeyHits(ts, d);
    ZeroEntrySlots();
    IncByClosedForm(Num(0), Hits(ts, d, "total"));
    IncByClosedForm(Num(0), 0);
    IncByClosedForm(Undefined, Hits(ts, d, "inprogress"));
  }

  /** Each department's "total" is its number of aggregated records. */
  lemma DepartmentTotal(store: Store, f: StatsFilters, d: string)
    requires AllEnumStatuses(Selected(store, f))
    ensures var s := GetStats(store, f);
            d in s.byDepartment ==>
              Slot(s.byDepartment[d], "total") == Num(multiset(Departments(Selected(store, f)))[d])
  {
    EnumTicks(store, f);
    GroupEnumTicks(Ticks(Selected(store, f)), d);
  }

  /** The camel-case "inProgress" slot of every department stays 0. */
  lemma DepartmentInProgressStaysZero(store: Store, f: StatsFilters, d: string)
    requires AllEnumStatuses(Selected(store, f))
    ensures var s := GetStats(store, f);
            d in s.byDepartment ==> Slot(s.byDepartment[d], "inProgress") == Num(0)
  {
    EnumTicks(store, f);
    GroupEnumTicks(Ticks(Selected(store, f)), d);
  }

  /** The stray "inprogress" slot of a department is `NaN` exactly when the
      department has an 'In Progress' record, and missing otherwise. */
  lemma DepartmentStrayInProgress(store: Store, f: StatsFilters, d: string)
    requires AllEnumStatuses(Selected(store, f))
    ensures var s := GetStats(store, f);
            var cs := Selected(store, f);
            d in s.byDepartment ==>
              && (Slot(s.byDepartment[d], "inprogress") == NaN <==>
                  exists c :: c in cs && c.fields.department == d && c.fields.status == Some("In Progress"))
              && (Slot(s.byDepartment[d], "inprogress") == NaN || Slot(s.byDepartment[d], "inprogress") == Undefined)
  {
    var cs := Selected(store, f);
    EnumTicks(store, f);
    var ts := Ticks(cs);
    GroupEnumTicks(ts, d);
    InProgressTicks(cs, d);
  }

  /** A tick (d, "inprogress") comes from an 'In Progress' record of `d`
      and from nothing else. */
  lemma InProgressTicks(cs: seq<Complaint>, d: string)
    requires AllEnumStatuses(cs)
    ensures AllHaveStatus(cs)
    ensures Hits(Ticks(cs), d, "inprogress") > 0 <==>
      exists c :: c in cs && c.fields.department == d && c.fields.status == Some("In Progress")
  {
    TicksOfEnumStatuses(cs);
    var ts := Ticks(cs);
    HitsPositive(ts, d, "inprogress");
    forall i | 0 <= i < |ts|
      ensures ts[i] == Tick(d, "inprogress") <==> cs[i].fields.department == d && cs[i].fields.status == Some("In Progress")
    {
      EnumKeyInProgress(cs[i].fields.status);
    }
    if exists c :: c in cs && c.fields.department == d && c.fields.status == Some("In Progress") {
      var c :| c in cs && c.fields.department == d && c.fields.status == Some("In Progress");
      var i :| 0 <= i < |cs| && cs[i] == c;
      assert ts[i] == Tick(d, "inprogress");
    }
    if exists i :: 0 <= i < |ts| && ts[i] == Tick(d, "inprogress") {
      var i :| 0 <= i < |ts| && ts[i] == Tick(d, "inprogress");
      assert cs[i] in cs;
    }
  }

  /** Among the enumerated statuses only 'In Progress' has the key
      "inprogress". */
  lemma EnumKeyInProgress(s: Option<string>)
    requires IsEnumStatus(s)
    ensures EnumKey(s) == "inprogress" <==> s == Some("In Progress")
  {
    assert "pending"[0] != "inprogress"[0];
    assert "resolved"[0] != "inprogress"[0];
    assert "rejected"[0] != "inprogress"[0];
  }

  /** Different enumerated statuses increment different slots. */
  lemma EnumKeyInjective(a: Option<string>, b: Option<string>)
    requires IsEnumStatus(a) && IsEnumStatus(b)
    ensures EnumKey(a) == EnumKey(b) <==> a == b
  {
    assert "pending"[0] != "inprogress"[0] && "pending"[0] != "resolved"[0] && "pending"[0] != "rejected"[0];
    assert "inprogress"[0] != "resolved"[0] && "inprogress"[0] != "rejected"[0];
    assert "resolved"[2] != "rejected"[2];
  }

  /** The slot of an enumerated status is hit once per record of the
      department carrying that status. */
  lemma {:induction false} EnumHitsCount(cs: seq<Complaint>, d: string, s: string)
    requires AllEnumStatuses(cs) && IsEnumStatus(Some(s))
    ensures AllHaveStatus(cs)
    ensures Hits(Ticks(cs), d, EnumKey(Some(s))) == |Filter(cs, InDepartmentWithStatus(d, s))|
  {
    if |cs| > 0 {
      var key := EnumKey(Some(s));
      var ts := Ticks(cs);
      var rest := cs[1..];
      EnumHitsCount(rest, d, s);
      TicksTail(cs);
      RecordHits(cs[0], d, s);
      assert Hits(ts, d, key) == TickHits(ts[0], d, key) + Hits(Ticks(rest), d, key);
    }
  }

  lemma TicksTail(cs: seq<Complaint>)
    requires |cs| > 0 && AllHaveStatus(cs)
    ensures AllHaveStatus(cs[1..])
    ensures Ticks(cs)[1..] == Ticks(cs[1..])
    ensures Ticks(cs)[0] == Tick(cs[0].fields.department, StatusKey(cs[0].fields.status.value))
  {
  }

  /** One record's tick hits the slot of status `s` of department `d`
      exactly when the record belongs to `d` and has status `s`. */
  lemma RecordHits(c: Complaint, d: string, s: string)
    requires IsEnumStatus(c.fields.status) && IsEnumStatus(Some(s))
    ensures TickHits(Tick(c.fields.department, StatusKey(c.fields.status.value)), d, EnumKey(Some(s)))
         == if InDepartmentWithStatus(d, s)(c) then 1 else 0
  {
    EnumStatusKey(c.fields.status);
    EnumKeyInjective(c.fields.status, Some(s));
    EnumKeysMissOtherSlots(EnumKey(Some(s)));
  }

  lemma ZeroEntryStatusSlots()
    ensures Slot(ZeroEntry, "pending") == Num(0)
    ensures Slot(ZeroEntry, "resolved") == Num(0)
    ensures Slot(ZeroEntry, "rejected") == Num(0)
  {
  }

  /** The "pending", "resolved" and "rejected" slots of a department count
      that department's records with the matching status. */
  lemma DepartmentStatusSlots(store: Store, f: StatsFilters, d: string)
    requires AllEnumStatuses(Selected(store, f))
    ensures var s := GetStats(store, f);
            var cs := Selected(store, f);
            d in s.byDepartment ==>
              && Slot(s.byDepartment[d], "pending") == Num(|Filter(cs, InDepartmentWithStatus(d, "Pending"))|)
              && Slot(s.byDepartment[d], "resolved") == Num(|Filter(cs, InDepartmentWithStatus(d, "Resolved"))|)
              && Slot(s.byDepartment[d], "rejected") == Num(|Filter(cs, InDepartmentWithStatus(d, "Rejected"))|)
  {
    var cs := Selected(store, f);
    EnumTicks(store, f);
    ZeroEntryStatusSlots();
    DepartmentSlotCount(cs, d, "Pending", "pending");
    DepartmentSlotCount(cs, d, "Resolved", "resolved");
    DepartmentSlotCount(cs, d, "Rejected", "rejected");
  }

  lemma DepartmentSlotCount(cs: seq<Complaint>, d: string, s: string, key: string)
    requires AllEnumStatuses(cs) && IsEnumStatus(Some(s)) && EnumKey(Some(s)) == key
    requires Slot(ZeroEntry, key) == Num(0)
    ensures AllHaveStatus(cs)
    ensures var g := Group(map[], Ticks(cs));
            d in g ==> Slot(g[d], key) == Num(|Filter(cs, InDepartmentWithStatus(d, s))|)
  {
    EnumHitsCount(cs, d, s);
    var ts := Ticks(cs);
    var n := Hits(ts, d, key);
    var g := Group(map[], ts);
    GroupSlots(map[], ts, d, key);
    var z := Slot(Start(map[], d), key);
    assert z == Num(0);
    CountFromZero(n);
  }

  lemma CountFromZero(n: nat)
    ensures IncBy(Num(0), n) == Num(n)
  {
    IncByClosedForm(Num(0), n);
  }

  /** The value a counter contributes to a sum (`NaN` and missing count 0). */
  function CounterValue(c: Counter): nat
  {
    if c.Num? then c.n else 0
  }

  /** The sum of the "total" slots of the entries listed in `keys`. */
  function SumOfTotals(byDept: map<string, DeptEntry>, keys: seq<string>): nat
  {
    if |keys| == 0 then 0
    else (if keys[0] in byDept then CounterValue(Slot(byDept[keys[0]], "total")) else 0)
         + SumOfTotals(byDept, keys[1..])
  }

  lemma {:induction false} SumOfTotalsIsOccurrences(byDept: map<string, DeptEntry>, keys: seq<string>, ds: seq<string>)
    requires forall k :: k in keys ==> k in byDept && Slot(byDept[k], "total") == Num(multiset(ds)[k])
    ensures SumOfTotals(byDept, keys) == SumOfOccurrences(keys, ds)
  {
    if |keys| > 0 {
      SumOfTotalsIsOccurrences(byDept, keys[1..], ds);
    }
  }

  /** With enumerated statuses, listing each department once (in order of
      first appearance) covers every entry of `byDepartment`, and the
      entries' totals add up to the overall total. */
  lemma DepartmentTotalsSumToTotal(store: Store, f: StatsFilters)
    requires AllEnumStatuses(Selected(store, f))
    ensures var s := GetStats(store, f);
            var keys := Distinct(Departments(Selected(store, f)));
            && (forall d :: d in s.byDepartment <==> d in keys)
            && NoDuplicates(keys)
            && SumOfTotals(s.byDepartment, keys) == s.total
  {
    var cs := Selected(store, f);
    var s := GetStats(store, f);
    var ds := Departments(cs);
    var keys := Distinct(ds);
    var bd := s.byDepartment;
    assert AllHaveStatus(cs);
    assert forall k :: k in bd <==> k in keys;
    forall k | k in keys
      ensures k in bd && Slot(bd[k], "total") == Num(multiset(ds)[k])
    {
      DepartmentTotal(store, f, k);
    }
    SumOfTotalsIsOccurrences(bd, keys, ds);
    DistinctOccurrencesSumToLength(ds);
  }

  /** Counts of four pairwise different values that cover every record add
      up to the number of records. */
  lemma {:induction false} StatusCountsCover(cs: seq<Complaint>)
    requires AllEnumStatuses(cs)
    ensures StatusCount(cs, "Pending") + StatusCount(cs, "In Progress")
          + StatusCount(cs, "Resolved") + StatusCount(cs, "Rejected") == |cs|
  {
    if |cs| > 0 {
      StatusCountsCover(cs[1..]);
    }
  }

  /** When every aggregated status is one of the four enumerated values, the
      four status counts add up to the total. */
  lemma StatusCountsSumToTotal(store: Store, f: StatsFilters)
    requires AllEnumStatuses(Selected(store, f))
    ensures var s := GetStats(store, f);
            s.pending + s.inProgress + s.resolved + s.rejected == s.total
  {
    StatusCountsCover(Selected(store, f));
  }

  predicate IsEnumPriority(p: Option<string>)
  {
    p == Some("Low") || p == Some("Medium") || p == Some("High") || p == Some("Critical")
  }

  lemma {:induction false} PriorityCountsCover(cs: seq<Complaint>)
    requires forall i :: 0 <= i < |cs| ==> IsEnumPriority(cs[i].fields.priority)
    ensures PriorityCount(cs, "Low") + PriorityCount(cs, "Medium")
          + PriorityCount(cs, "High") + PriorityCount(cs, "Critical") == |cs|
  {
    if |cs| > 0 {
      PriorityCountsCover(cs[1..]);
    }
  }

  /** When every record has a status and every priority is one of the four
      enumerated values, the priority counts add up to the total. */
  lemma PriorityCountsSumToTotal(store: Store, f: StatsFilters)
    requires AllHaveStatus(Selected(store, f))
    requires forall c :: c in Selected(store, f) ==> IsEnumPriority(c.fields.priority)
    ensures var s := GetStats(store, f);
            s.byPriority.low + s.byPriority.medium + s.byPriority.high + s.byPriority.critical == s.total
  {
    PriorityCountsCover(Selected(store, f));
  }
}
