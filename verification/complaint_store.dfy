/**
  The in-memory complaint store of `ComplaintModel`: listing with filters,
  lookup, creation, update and deletion. The store is a sequence threaded through pure functions; each
  mutating operation returns its result together with the new store.
 */
module ComplaintStore {
  import opened Common
  import opened Strings
  import SharedApi

  /** A complaint's `userId` as JavaScript holds it: a number in the seeded
      records, the string the bearer token carried in records created through
      the API. Strict equality never equates the two kinds. */
  datatype StoredId = NumberId(n: nat) | TextId(s: string)

  /** `v === parseInt(x)` where `a` is what `parseInt` made of `x`: only a
      stored number can equal it, and `NaN` equals nothing. */
  predicate EqualsParsed(v: StoredId, a: IdArg)
  {
    a.IdNum? && v == NumberId(a.n)
  }

  /** Every field of a complaint record except its id and timestamps.
      Fields the source may leave `undefined` are options. */
  datatype Fields = Fields(
    text: string,
    image: Option<string>,
    category: string,
    department: string,
    departmentEmail: string,
    status: Option<string>,
    sentiment: Option<string>,
    submittedBy: string,
    userId: StoredId,
    assignedTo: Option<nat>,
    priority: Option<string>,
    location: Option<string>,
    contactNumber: Option<string>)

  /** A stored complaint; timestamps are opaque instants, larger is later. */
  datatype Complaint = Complaint(id: nat, fields: Fields, createdAt: nat, updatedAt: nat)

  type Store = seq<Complaint>

  // ---------------------------------------------------------------------------
  // Listing

  /** The filters `findAll` receives. Only the first four are consulted. */
  datatype Filters = Filters(
    status: Option<string>,
    department: Option<string>,
    userId: Option<IdArg>,
    assignedTo: Option<IdArg>,
    sentiment: Option<string>,
    search: Option<string>,
    limit: Option<string>,
    offset: Option<string>)

  const NoFilters := Filters(None, None, None, None, None, None, None, None)

  /** `c` passes every filter that is set: a status or department filter is
      set when it is a non-empty string, an id filter when a non-empty string
      was given, which `parseInt` then reads and `===` compares. */
  predicate Matches(f: Filters, c: Complaint)
  {
    && (SharedApi.IsTruthy(f.status) ==> c.fields.status == f.status)
    && (SharedApi.IsTruthy(f.department) ==> c.fields.department == f.department.value)
    && (f.userId.Some? ==> EqualsParsed(c.fields.userId, f.userId.value))
    && (f.assignedTo.Some? ==> c.fields.assignedTo.Some? && f.assignedTo.value == IdNum(c.fields.assignedTo.value))
  }

  /** Creation times never increase along `s`. */
  ghost predicate NewestFirst(s: seq<Complaint>)
  {
    forall i, j :: 0 <= i < j < |s| ==> s[i].createdAt >= s[j].createdAt
  }

  /** Creation times strictly increase along `s`, as they do in a store
      built by successive creations. */
  ghost predicate Chronological(s: seq<Complaint>)
  {
    forall i, j :: 0 <= i < j < |s| ==> s[i].createdAt < s[j].createdAt
  }

  /** Places `c` before the first record that is not newer than it. */
  function InsertByAge(c: Complaint, s: seq<Complaint>): (r: seq<Complaint>)
    requires NewestFirst(s)
    ensures NewestFirst(r)
    ensures multiset(r) == multiset(s) + multiset{c}
    ensures |r| == |s| + 1
    ensures r[0] == c || (|s| > 0 && r[0] == s[0])
  {
    if |s| == 0 || s[0].createdAt <= c.createdAt then
      ConsNewestFirst(c, s);
      [c] + s
    else
      var rest := InsertByAge(c, s[1..]);
      StepPastHead(s, c, rest);
      [s[0]] + rest
  }

  /** The recursive step of `InsertByAge`: keeping an older head in front
      of the insertion into the tail. */
  lemma StepPastHead(s: seq<Complaint>, c: Complaint, rest: seq<Complaint>)
    requires |s| > 0 && NewestFirst(s) && c.createdAt < s[0].createdAt
    requires NewestFirst(rest) && multiset(rest) == multiset(s[1..]) + multiset{c}
    requires |rest| > 0 && (rest[0] == c || (|s| > 1 && rest[0] == s[1]))
    ensures NewestFirst([s[0]] + rest)
    ensures multiset([s[0]] + rest) == multiset(s) + multiset{c}
  {
    ConsNewestFirst(s[0], rest);
    assert s == [s[0]] + s[1..];
  }

  /** A record no older than the head of a newest-first list can go in
      front of it. */
  lemma ConsNewestFirst(x: Complaint, s: seq<Complaint>)
    requires NewestFirst(s) && (|s| == 0 || s[0].createdAt <= x.createdAt)
    ensures NewestFirst([x] + s)
  {
    var r := [x] + s;
    forall i, j | 0 <= i < j < |r| ensures r[i].createdAt >= r[j].createdAt {
      if i == 0 {
        assert r[j] == s[j - 1];
      }
    }
  }

  /** The stable sort `(a, b) => b.created_at - a.created_at`: newest first,
      records created at the same instant keep their relative order. */
  function SortNewestFirst(s: seq<Complaint>): (r: seq<Complaint>)
    ensures NewestFirst(r)
    ensures multiset(r) == multiset(s)
  {
    if |s| == 0 then []
    else
      assert s == [s[0]] + s[1..];
      InsertByAge(s[0], SortNewestFirst(s[1..]))
  }

  /** `findAll`: the records that pass every set filter, newest first.
      `sentiment`, `search`, `limit` and `offset` are accepted and ignored. */
  function FindAll(store: Store, f: Filters): (r: seq<Complaint>)
    ensures forall c :: multiset(r)[c] == if Matches(f, c) then multiset(store)[c] else 0
    ensures forall c :: c in r <==> c in store && Matches(f, c)
    ensures NewestFirst(r)
  {
    var sel := Filter(store, c => Matches(f, c));
    var r := SortNewestFirst(sel);
    assert forall c :: c in r <==> multiset(r)[c] > 0;
    r
  }

  /** `c => c.created_at == t`. */
  function CreatedAt(t: nat): Complaint -> bool
  {
    (c: Complaint) => c.createdAt == t
  }

  /** The records of `s` created at instant `t`, in order: `Filter` with
      `CreatedAt(t)`, written out so that proofs about it stay small. */
  function Stamped(s: seq<Complaint>, t: nat): seq<Complaint>
  {
    if |s| == 0 then [] else (if s[0].createdAt == t then [s[0]] else []) + Stamped(s[1..], t)
  }

  lemma {:induction false} StampedIsFilter(s: seq<Complaint>, t: nat)
    ensures Stamped(s, t) == Filter(s, CreatedAt(t))
  {
    if |s| > 0 {
      var tail := s[1..];
      StampedIsFilter(tail, t);
      if s[0].createdAt == t {
        assert Filter(s, CreatedAt(t)) == [s[0]] + Filter(tail, CreatedAt(t));
      } else {
        assert Filter(s, CreatedAt(t)) == Filter(tail, CreatedAt(t));
        assert Stamped(s, t) == [] + Stamped(tail, t) == Stamped(tail, t);
      }
    }
  }

  lemma StampedCons(x: Complaint, s: seq<Complaint>, t: nat)
    ensures Stamped([x] + s, t) == (if x.createdAt == t then [x] else []) + Stamped(s, t)
  {
    assert ([x] + s)[0] == x && ([x] + s)[1..] == s;
  }

  /** Inserting `c` puts it ahead of every record created at the same
      instant and leaves their order alone. */
  lemma InsertByAgeStable(c: Complaint, s: seq<Complaint>, t: nat)
    requires NewestFirst(s)
    ensures Filter(InsertByAge(c, s), CreatedAt(t)) == (if c.createdAt == t then [c] else []) + Filter(s, CreatedAt(t))
  {
    InsertStamped(c, s, t);
    StampedIsFilter(InsertByAge(c, s), t);
    StampedIsFilter(s, t);
  }

  lemma {:induction false} InsertStamped(c: Complaint, s: seq<Complaint>, t: nat)
    requires NewestFirst(s)
    ensures Stamped(InsertByAge(c, s), t) == (if c.createdAt == t then [c] else []) + Stamped(s, t)
  {
    if |s| == 0 || s[0].createdAt <= c.createdAt {
      assert InsertByAge(c, s) == [c] + s;
      StampedCons(c, s, t);
    } else {
      var rest := InsertByAge(c, s[1..]);
      assert InsertByAge(c, s) == [s[0]] + rest;
      InsertStamped(c, s[1..], t);
      assert s == [s[0]] + s[1..];
      StampedPastOlderHead(c, s[0], s[1..], rest, t);
    }
  }

  /** The step of `InsertStamped` where `c` goes behind an older head `x`:
      the head's stamp comes first on both sides. */
  lemma StampedPastOlderHead(c: Complaint, x: Complaint, tail: seq<Complaint>, rest: seq<Complaint>, t: nat)
    requires c.createdAt < x.createdAt
    requires Stamped(rest, t) == (if c.createdAt == t then [c] else []) + Stamped(tail, t)
    ensures Stamped([x] + rest, t) == (if c.createdAt == t then [c] else []) + Stamped([x] + tail, t)
  {
    StampedCons(x, rest, t);
    StampedCons(x, tail, t);
    if x.createdAt == t {
      assert [] + Stamped(tail, t) == Stamped(tail, t);
      assert [] + Stamped([x] + tail, t) == Stamped([x] + tail, t);
    }
  }

  /** The sort is stable: the records created at any one instant appear in
      the order they had in the input. */
  lemma {:induction false} SortNewestFirstStable(s: seq<Complaint>, t: nat)
    ensures Filter(SortNewestFirst(s), CreatedAt(t)) == Filter(s, CreatedAt(t))
  {
    if |s| > 0 {
      SortNewestFirstStable(s[1..], t);
      InsertByAgeStable(s[0], SortNewestFirst(s[1..]), t);
    }
  }

  /** When every record was created at the same instant, `findAll` lists
      the matching records in store order. */
  lemma FindAllKeepsStoreOrderOnTies(store: Store, f: Filters, t: nat)
    requires forall i :: 0 <= i < |store| ==> store[i].createdAt == t
    ensures FindAll(store, f) == Filter(store, c => Matches(f, c))
  {
    var sel := Filter(store, c => Matches(f, c));
    var r := FindAll(store, f);
    assert r == SortNewestFirst(sel);
    SortNewestFirstStable(sel, t);
    forall i | 0 <= i < |sel| ensures CreatedAt(t)(sel[i]) {
      assert sel[i] in store;
    }
    FilterKeepsAll(sel, CreatedAt(t));
    forall i | 0 <= i < |r| ensures CreatedAt(t)(r[i]) {
      assert r[i] in store;
    }
    FilterKeepsAll(r, CreatedAt(t));
  }

  /** Sorting keeps the count: the listing is as long as the filtered
      store. */
  lemma FindAllLength(store: Store, f: Filters)
    ensures |FindAll(store, f)| == |Filter(store, c => Matches(f, c))|
  {
    var sel := Filter(store, c => Matches(f, c));
    var r := FindAll(store, f);
    assert multiset(r) == multiset(sel) by {
      forall c ensures multiset(r)[c] == multiset(sel)[c] {
      }
    }
    assert |multiset(r)| == |r| && |multiset(sel)| == |sel|;
  }

  /** Changing only the ignored filters never changes the result. */
  lemma FindAllIgnoresUnusedFilters(store: Store, f: Filters, sentiment: Option<string>,
                                    search: Option<string>, limit: Option<string>, offset: Option<string>)
    ensures FindAll(store, f) == FindAll(store, f.(sentiment := sentiment, search := search, limit := limit, offset := offset))
  {
    var g := f.(sentiment := sentiment, search := search, limit := limit, offset := offset);
    FilterCongruent(store, c => Matches(f, c), c => Matches(g, c));
  }

  function Reverse<T>(s: seq<T>): (r: seq<T>)
    ensures |r| == |s|
    ensures forall i :: 0 <= i < |s| ==> r[i] == s[|s| - 1 - i]
  {
    if |s| == 0 then [] else Reverse(s[1..]) + [s[0]]
  }

  lemma {:induction false} InsertOlderThanAll(c: Complaint, s: seq<Complaint>)
    requires NewestFirst(s)
    requires forall i :: 0 <= i < |s| ==> s[i].createdAt > c.createdAt
    ensures InsertByAge(c, s) == s + [c]
  {
    if |s| > 0 {
      InsertOlderThanAll(c, s[1..]);
      assert s == [s[0]] + s[1..];
    }
  }

  /** On records created at strictly increasing instants, sorting newest
      first is reversal. */
  lemma {:induction false} SortChronologicalIsReverse(s: seq<Complaint>)
    requires Chronological(s)
    ensures SortNewestFirst(s) == Reverse(s)
  {
    if |s| > 0 {
      SortChronologicalIsReverse(s[1..]);
      ReverseOfTailIsNewer(s);
      InsertOlderThanAll(s[0], Reverse(s[1..]));
    }
  }

  lemma ReverseOfTailIsNewer(s: seq<Complaint>)
    requires |s| > 0 && Chronological(s)
    ensures forall i :: 0 <= i < |s| - 1 ==> Reverse(s[1..])[i].createdAt > s[0].createdAt
  {
    var t := Reverse(s[1..]);
    forall i | 0 <= i < |t| ensures t[i].createdAt > s[0].createdAt {
      assert t[i] == s[|s| - 1 - i];
    }
  }

  lemma {:induction false} FilterKeepsChronological(s: seq<Complaint>, p: Complaint -> bool)
    requires Chronological(s)
    ensures Chronological(Filter(s, p))
  {
    if |s| > 0 {
      FilterKeepsChronological(s[1..], p);
      var rest := Filter(s[1..], p);
      if p(s[0]) {
        var r := [s[0]] + rest;
        assert Filter(s, p) == r;
        forall i, j | 0 <= i < j < |r| ensures r[i].createdAt < r[j].createdAt {
          assert r[j] == rest[j - 1] && rest[j - 1] in s[1..];
          if i > 0 {
            assert r[i] == rest[i - 1];
          }
        }
      }
    }
  }

  /** On a store whose records were created one after another, `findAll`
      returns the matching records in exactly the reverse of store order. */
  lemma FindAllOnChronologicalStore(store: Store, f: Filters)
    requires Chronological(store)
    ensures FindAll(store, f) == Reverse(Filter(store, c => Matches(f, c)))
  {
    FilterKeepsChronological(store, c => Matches(f, c));
    SortChronologicalIsReverse(Filter(store, c => Matches(f, c)));
  }

  // ---------------------------------------------------------------------------
  // Lookup, creation, update, deletion

  /** `c.id === parseInt(id)`: an id that does not parse matches nothing. */
  predicate IdMatches(c: Complaint, id: IdArg)
  {
    id.IdNum? && c.id == id.n
  }

  /** `findIndex(c => c.id === parseInt(id))`: the first position holding
      `id`, or -1. */
  function FindIndex(store: Store, id: IdArg): (k: int)
    ensures -1 <= k < |store|
    ensures k == -1 <==> !HasId(store, id)
    ensures k >= 0 ==> FirstWithId(store, id, k)
  {
    FirstIndex(store, c => IdMatches(c, id))
  }

  /** `k` is the first position of `store` holding `id`. */
  predicate FirstWithId(store: Store, id: IdArg, k: int)
  {
    0 <= k < |store| && IdMatches(store[k], id) && forall i :: 0 <= i < k ==> !IdMatches(store[i], id)
  }

  predicate HasId(store: Store, id: IdArg)
  {
    exists i :: 0 <= i < |store| && IdMatches(store[i], id)
  }

  /** `findById`: the first record with that id, or nothing. */
  function FindById(store: Store, id: IdArg): (r: Option<Complaint>)
    ensures r.None? <==> !HasId(store, id)
    ensures r.Some? ==> exists k :: FirstWithId(store, id, k) && r.value == store[k]
  {
    var k := FindIndex(store, id);
    if k == -1 then None else Some(store[k])
  }

  /** The first position holding an id is the one `findById` reads. */
  lemma FindByIdAt(store: Store, id: IdArg, k: int)
    requires FirstWithId(store, id, k)
    ensures FindById(store, id) == Some(store[k])
  {
    var j := FindIndex(store, id);
    assert IdMatches(store[k], id);
    assert j >= 0 && IdMatches(store[j], id);
  }

  /** Replacing the record at the first position holding an id by one with
      the same id keeps that position first. */
  lemma FirstWithIdAfterReplace(store: Store, id: IdArg, k: int, c: Complaint)
    requires FirstWithId(store, id, k) && c.id == store[k].id
    ensures FirstWithId(store[k := c], id, k)
  {
    var s := store[k := c];
    forall i | 0 <= i < k ensures !IdMatches(s[i], id) {
      assert s[i] == store[i];
    }
  }

  /** No two records share an id. */
  ghost predicate IdsDistinct(store: Store)
  {
    forall i, j :: 0 <= i < j < |store| ==> store[i].id != store[j].id
  }

  /** Ids are exactly 1..n in store order, as in the seed. */
  ghost predicate IdsConsecutive(store: Store)
  {
    forall i :: 0 <= i < |store| ==> store[i].id == i + 1
  }

  /** `create`: appends one record with id = current size + 1 and both
      timestamps set to `now`. Nothing is defaulted: a missing status stays
      missing. */
  function Create(store: Store, data: Fields, now: nat): (r: (Complaint, Store))
    ensures r.1 == store + [r.0]
    ensures r.0.id == |store| + 1
    ensures r.0.fields == data
    ensures r.0.createdAt == now && r.0.updatedAt == now
  {
    var c := Complaint(|store| + 1, data, now, now);
    (c, store + [c])
  }

  /** While ids are 1..n, creation keeps them so and its id is fresh. */
  lemma CreateKeepsIdsConsecutive(store: Store, data: Fields, now: nat)
    requires IdsConsecutive(store)
    ensures IdsConsecutive(Create(store, data, now).1)
    ensures !HasId(store, IdNum(Create(store, data, now).0.id))
  {
  }

  /** Creation at a later instant keeps the store chronological. */
  lemma CreateKeepsChronological(store: Store, data: Fields, now: nat)
    requires Chronological(store)
    requires forall i :: 0 <= i < |store| ==> store[i].createdAt < now
    ensures Chronological(Create(store, data, now).1)
  {
  }

  /** The partial update a caller supplies; a present field overrides. */
  datatype Patch = Patch(
    text: Option<string>,
    image: Option<string>,
    category: Option<string>,
    department: Option<string>,
    departmentEmail: Option<string>,
    status: Option<string>,
    sentiment: Option<string>,
    submittedBy: Option<string>,
    userId: Option<StoredId>,
    assignedTo: Option<nat>,
    priority: Option<string>,
    location: Option<string>,
    contactNumber: Option<string>)

  const EmptyPatch := Patch(None, None, None, None, None, None, None, None, None, None, None, None, None)

  function Override<T>(current: T, given: Option<T>): T
  {
    if given.Some? then given.value else current
  }

  function OverrideOption<T>(current: Option<T>, given: Option<T>): Option<T>
  {
    if given.Some? then given else current
  }

  /** `{ ...fields, ...patch }`. */
  function Merge(f: Fields, p: Patch): Fields
  {
    Fields(
      Override(f.text, p.text), OverrideOption(f.image, p.image), Override(f.category, p.category),
      Override(f.department, p.department), Override(f.departmentEmail, p.departmentEmail),
      OverrideOption(f.status, p.status), OverrideOption(f.sentiment, p.sentiment),
      Override(f.submittedBy, p.submittedBy), Override(f.userId, p.userId),
      OverrideOption(f.assignedTo, p.assignedTo), OverrideOption(f.priority, p.priority),
      OverrideOption(f.location, p.location), OverrideOption(f.contactNumber, p.contactNumber))
  }

  /** Merging nothing changes nothing; merging the same patch twice is
      merging it once; a patch carrying only a status changes only the
      status. */
  lemma MergeLaws(f: Fields, p: Patch, s: string)
    ensures Merge(f, EmptyPatch) == f
    ensures Merge(Merge(f, p), p) == Merge(f, p)
    ensures Merge(f, EmptyPatch.(status := Some(s))) == f.(status := Some(s))
  {
  }

  /** Record `k` was merged with `p` and re-stamped at `now`, giving `c`,
      and `store'` is `store` with only that record replaced. */
  predicate UpdatedAt(store: Store, k: int, p: Patch, now: nat, c: Complaint, store': Store)
    requires 0 <= k < |store|
  {
    && c == Complaint(store[k].id, Merge(store[k].fields, p), store[k].createdAt, now)
    && store' == store[k := c]
  }

  /** `updateById`: nothing happens for an unknown id; otherwise the first
      record with that id is merged with the patch and re-stamped, and no
      other record changes. */
  function UpdateById(store: Store, id: IdArg, p: Patch, now: nat): (r: (Option<Complaint>, Store))
    ensures r.0.None? <==> !HasId(store, id)
    ensures r.0.None? ==> r.1 == store
    ensures r.0.Some? ==> exists k :: FirstWithId(store, id, k) && UpdatedAt(store, k, p, now, r.0.value, r.1)
    ensures |r.1| == |store|
  {
    var k := FindIndex(store, id);
    if k == -1 then (None, store)
    else
      var c := store[k].(fields := Merge(store[k].fields, p), updatedAt := now);
      assert FirstWithId(store, id, k) && UpdatedAt(store, k, p, now, c, store[k := c]);
      (Some(c), store[k := c])
  }

  /** Updating never changes ids, so it keeps them 1..n. */
  lemma UpdateKeepsIdsConsecutive(store: Store, id: IdArg, p: Patch, now: nat)
    requires IdsConsecutive(store)
    ensures IdsConsecutive(UpdateById(store, id, p, now).1)
  {
  }

  /** `deleteById`: false and no change for an unknown id; otherwise true,
      and exactly the first record with that id is removed, the others
      keeping their order. */
  function DeleteById(store: Store, id: IdArg): (r: (bool, Store))
    ensures r.0 <==> HasId(store, id)
    ensures !r.0 ==> r.1 == store
    ensures r.0 ==> exists k :: FirstWithId(store, id, k) && r.1 == store[..k] + store[k + 1..]
    ensures r.0 ==> |r.1| == |store| - 1 && IsSubsequence(r.1, store)
  {
    var k := FindIndex(store, id);
    if k == -1 then (false, store)
    else
      var rest := store[..k] + store[k + 1..];
      DropIsSubsequence(store, k);
      (true, rest)
  }

  lemma {:induction false} DropIsSubsequence<T>(s: seq<T>, k: nat)
    requires k < |s|
    ensures IsSubsequence(s[..k] + s[k + 1..], s)
  {
    if k == 0 {
      assert s[..k] + s[k + 1..] == s[1..];
      SubsequenceOfSelf(s[1..]);
    } else {
      DropIsSubsequence(s[1..], k - 1);
      assert s[1..][..k - 1] + s[1..][k..] == s[1..k] + s[k + 1..];
      var t := s[..k] + s[k + 1..];
      assert t[0] == s[0] && t[1..] == s[1..k] + s[k + 1..];
    }
  }

  lemma {:induction false} SubsequenceOfSelf<T>(s: seq<T>)
    ensures IsSubsequence(s, s)
  {
    if |s| > 0 {
      SubsequenceOfSelf(s[1..]);
    }
  }

  /** The id scheme size + 1 can collide: after deleting any record but the
      last of a store with ids 1..n, the next creation receives the id n of
      a record that is still stored. */
  lemma CreateAfterDeleteReusesId(store: Store, id: nat, data: Fields, now: nat)
    requires IdsConsecutive(store)
    requires 1 <= id < |store|
    ensures DeleteById(store, IdNum(id)).0
    ensures var s1 := DeleteById(store, IdNum(id)).1;
            var c := Create(s1, data, now).0;
            HasId(s1, IdNum(c.id)) && c.id == |store|
  {
    assert IdMatches(store[id - 1], IdNum(id));
    var s1 := DeleteById(store, IdNum(id)).1;
    assert s1 == store[..id - 1] + store[id..];
    assert s1[|s1| - 1] == store[|store| - 1];
  }
}
