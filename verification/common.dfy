/**
  Generic building blocks shared by every module of the model: an `Option`
  for the values JavaScript represents as `null`/`undefined`, and the array
  operations the source leans on (`filter`, `map`, `find`, de-duplication
  through a `Set`) together with the facts the other modules need about them.
 */
module Common {

  /** A value that may be absent (`null` or `undefined` in the source). */
  datatype Option<T> = None | Some(value: T)

  /** The two clock readings a seeded record takes, `created_at` and
      `updated_at`, each a separate `new Date()`. */
  datatype Stamps = Stamps(created: nat, updated: nat)

  /** The elements of `s` that satisfy `p`, in their original order,
      like `Array.prototype.filter`. */
  function Filter<T(!new)>(s: seq<T>, p: T -> bool): (r: seq<T>)
    ensures |r| <= |s|
    ensures forall i :: 0 <= i < |r| ==> p(r[i])
    ensures forall x :: x in r <==> x in s && p(x)
    ensures forall x :: multiset(r)[x] == if p(x) then multiset(s)[x] else 0
    ensures IsSubsequence(r, s)
  {
    if |s| == 0 then []
    else
      var rest := Filter(s[1..], p);
      FilterStepMembers(s, p, rest);
      FilterStepCounts(s, p, rest);
      FilterStepOrder(s, p, rest);
      if p(s[0]) then [s[0]] + rest else rest
  }

  /** One step of filtering, for membership: the tail's filter extended by
      the head when the head qualifies. */
  lemma FilterStepMembers<T>(s: seq<T>, p: T -> bool, rest: seq<T>)
    requires |s| > 0 && forall x :: x in rest <==> x in s[1..] && p(x)
    ensures var r := if p(s[0]) then [s[0]] + rest else rest;
      forall x :: x in r <==> x in s && p(x)
  {
    assert forall x :: x in s <==> x == s[0] || x in s[1..];
  }

  /** One step of filtering, for multiplicities. */
  lemma FilterStepCounts<T>(s: seq<T>, p: T -> bool, rest: seq<T>)
    requires |s| > 0 && forall x :: multiset(rest)[x] == if p(x) then multiset(s[1..])[x] else 0
    ensures var r := if p(s[0]) then [s[0]] + rest else rest;
      forall x :: multiset(r)[x] == if p(x) then multiset(s)[x] else 0
  {
    assert s == [s[0]] + s[1..];
    assert multiset(s) == multiset{s[0]} + multiset(s[1..]);
    assert multiset([s[0]] + rest) == multiset{s[0]} + multiset(rest);
  }

  /** One step of filtering, for order. */
  lemma FilterStepOrder<T>(s: seq<T>, p: T -> bool, rest: seq<T>)
    requires |s| > 0 && IsSubsequence(rest, s[1..])
    ensures IsSubsequence(if p(s[0]) then [s[0]] + rest else rest, s)
  {
    if p(s[0]) {
      var r := [s[0]] + rest;
      assert r[0] == s[0] && r[1..] == rest;
    }
  }

  /** The position of the first element satisfying `p`, or -1: like
      `Array.prototype.findIndex`. */
  function FirstIndex<T>(s: seq<T>, p: T -> bool): (k: int)
    ensures -1 <= k < |s|
    ensures k == -1 <==> forall i :: 0 <= i < |s| ==> !p(s[i])
    ensures k >= 0 ==> p(s[k]) && forall i :: 0 <= i < k ==> !p(s[i])
  {
    if |s| == 0 then -1
    else if p(s[0]) then 0
    else
      var k := FirstIndex(s[1..], p);
      if k == -1 then -1 else k + 1
  }

  /** The first element satisfying `p`, if any: `Array.prototype.find`. */
  function Find<T>(s: seq<T>, p: T -> bool): (r: Option<T>)
    ensures r.None? <==> forall i :: 0 <= i < |s| ==> !p(s[i])
    ensures r.Some? ==> exists k :: 0 <= k < |s| && s[k] == r.value && p(s[k]) && forall i :: 0 <= i < k ==> !p(s[i])
  {
    var k := FirstIndex(s, p);
    if k == -1 then None else Some(s[k])
  }

  /** `a` can be obtained from `b` by deleting elements: order is kept. */
  ghost predicate IsSubsequence<T>(a: seq<T>, b: seq<T>)
    decreases |b|
  {
    if |a| == 0 then true
    else if |b| == 0 then false
    else (a[0] == b[0] && IsSubsequence(a[1..], b[1..])) || IsSubsequence(a, b[1..])
  }

  /** Filtering a list with a given head. */
  lemma FilterCons<T(!new)>(x: T, s: seq<T>, p: T -> bool)
    ensures Filter([x] + s, p) == (if p(x) then [x] + Filter(s, p) else Filter(s, p))
  {
    assert ([x] + s)[0] == x && ([x] + s)[1..] == s;
  }

  /** Keeping every element is the identity. */
  lemma {:induction false} FilterKeepsAll<T(!new)>(s: seq<T>, p: T -> bool)
    requires forall i :: 0 <= i < |s| ==> p(s[i])
    ensures Filter(s, p) == s
  {
    if |s| > 0 {
      FilterKeepsAll(s[1..], p);
    }
  }

  /** Sequences whose elements agree pointwise on `p` keep equally many. */
  lemma {:induction false} FilterLengthPointwise<T(!new)>(a: seq<T>, b: seq<T>, p: T -> bool)
    requires |a| == |b| && forall i :: 0 <= i < |a| ==> p(a[i]) == p(b[i])
    ensures |Filter(a, p)| == |Filter(b, p)|
  {
    if |a| > 0 {
      FilterLengthPointwise(a[1..], b[1..], p);
    }
  }

  /** Predicates that agree on every element filter alike. */
  lemma {:induction false} FilterCongruent<T(!new)>(s: seq<T>, p: T -> bool, q: T -> bool)
    requires forall x :: p(x) == q(x)
    ensures Filter(s, p) == Filter(s, q)
  {
    if |s| > 0 {
      FilterCongruent(s[1..], p, q);
    }
  }

  /** Filtering two permutations of one another keeps the same number of
      elements. */
  lemma FilterLengthOfPermutation<T(!new)>(a: seq<T>, b: seq<T>, p: T -> bool)
    requires multiset(a) == multiset(b)
    ensures |Filter(a, p)| == |Filter(b, p)|
  {
    var fa, fb := Filter(a, p), Filter(b, p);
    assert multiset(fa) == multiset(fb) by {
      forall x ensures multiset(fa)[x] == multiset(fb)[x] {
      }
    }
    assert |fa| == |multiset(fa)| == |multiset(fb)| == |fb|;
  }

  /** The elements of `s` without repetitions, in first-occurrence order:
      the iteration order of `new Set(s)` in JavaScript. */
  function Distinct<T(==,!new)>(s: seq<T>): (r: seq<T>)
    ensures forall x :: x in r <==> x in s
    ensures NoDuplicates(r)
    ensures |r| <= |s|
  {
    if |s| == 0 then []
    else
      var d := Distinct(s[..|s| - 1]);
      assert forall x :: x in s <==> x in s[..|s| - 1] || x == s[|s| - 1];
      if s[|s| - 1] in d then d else d + [s[|s| - 1]]
  }

  ghost predicate NoDuplicates<T>(s: seq<T>)
  {
    forall i, j :: 0 <= i < j < |s| ==> s[i] != s[j]
  }

  /** The position of the first occurrence of `x` in `s`. */
  function FirstPosition<T(==)>(s: seq<T>, x: T): (k: nat)
    requires x in s
    ensures k < |s| && s[k] == x && forall i :: 0 <= i < k ==> s[i] != x
  {
    if s[0] == x then 0 else 1 + FirstPosition(s[1..], x)
  }

  /** Appending an element does not move a first occurrence. */
  lemma {:induction false} FirstPositionInPrefix<T>(s: seq<T>, n: nat, x: T)
    requires n <= |s| && x in s[..n]
    ensures FirstPosition(s, x) == FirstPosition(s[..n], x)
  {
    var pre := s[..n];
    assert pre[0] == s[0];
    if s[0] != x {
      var k :| 0 <= k < n && pre[k] == x;
      assert s[1..][..n - 1] == pre[1..];
      assert pre[1..][k - 1] == x;
      FirstPositionInPrefix(s[1..], n - 1, x);
    }
  }

  /** `Distinct` lists the elements in the order of their first
      occurrence. */
  lemma {:induction false} DistinctInFirstOccurrenceOrder<T(!new)>(s: seq<T>)
    ensures forall i, j :: 0 <= i < j < |Distinct(s)| ==>
                           FirstPosition(s, Distinct(s)[i]) < FirstPosition(s, Distinct(s)[j])
  {
    if |s| > 0 {
      var n := |s| - 1;
      var init := s[..n];
      var last := s[n];
      var d := Distinct(init);
      DistinctInFirstOccurrenceOrder(init);
      forall i | 0 <= i < |d| ensures d[i] in s && FirstPosition(s, d[i]) == FirstPosition(init, d[i]) {
        assert d[i] in init;
        FirstPositionInPrefix(s, n, d[i]);
      }
      var r := Distinct(s);
      if last in d {
        assert r == d;
      } else {
        assert r == d + [last];
        assert FirstPosition(s, last) == n by {
          assert last !in init;
        }
        forall i, j | 0 <= i < j < |r|
          ensures FirstPosition(s, r[i]) < FirstPosition(s, r[j])
        {
          if j == |d| {
            assert FirstPosition(init, d[i]) < n;
          }
        }
      }
    }
  }

  /** The sum, over the entries of `keys`, of how often each occurs in `s`. */
  function SumOfOccurrences<T(==)>(keys: seq<T>, s: seq<T>): nat
  {
    if |keys| == 0 then 0 else multiset(s)[keys[0]] + SumOfOccurrences(keys[1..], s)
  }

  lemma {:induction false} SumOfOccurrencesAppendKey<T>(keys: seq<T>, y: T, s: seq<T>)
    ensures SumOfOccurrences(keys + [y], s) == SumOfOccurrences(keys, s) + multiset(s)[y]
  {
    if |keys| > 0 {
      assert (keys + [y])[1..] == keys[1..] + [y];
      SumOfOccurrencesAppendKey(keys[1..], y, s);
    }
  }

  lemma {:induction false} SumOfOccurrencesAppendElement<T>(keys: seq<T>, s: seq<T>, y: T)
    requires NoDuplicates(keys)
    ensures SumOfOccurrences(keys, s + [y]) == SumOfOccurrences(keys, s) + (if y in keys then 1 else 0)
  {
    if |keys| > 0 {
      assert multiset(s + [y]) == multiset(s) + multiset{y};
      assert y in keys[1..] ==> keys[0] != y;
      SumOfOccurrencesAppendElement(keys[1..], s, y);
    }
  }

  /** Every element is counted once under its distinct key: the multiplicities
      of the distinct values of `s` add up to the length of `s`. */
  lemma {:induction false} DistinctOccurrencesSumToLength<T(!new)>(s: seq<T>)
    ensures SumOfOccurrences(Distinct(s), s) == |s|
  {
    if |s| > 0 {
      var s', y := s[..|s| - 1], s[|s| - 1];
      assert s == s' + [y];
      var d := Distinct(s');
      DistinctOccurrencesSumToLength(s');
      SumOfOccurrencesAppendElement(d, s', y);
      if y !in d {
        SumOfOccurrencesAppendKey(d, y, s);
        assert multiset(s')[y] == 0;
        assert multiset(s)[y] == 1 by {
          assert multiset(s) == multiset(s') + multiset{y};
        }
        SumOfOccurrencesAppendElement(d, s', y);
      }
    }
  }
}
