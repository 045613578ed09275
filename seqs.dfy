/**
 Sequence helpers shared by the room model: ordering predicates, a generic
 filter (JavaScript's `Array.prototype.filter`) and the lexicographic order in
 which the backtracking search visits room combinations.
 */
module Seqs {

  /** Every element is smaller than every later one (so the elements are distinct). */
  predicate StrictlyIncreasing(s: seq<int>)
  {
    forall i, j :: 0 <= i < j < |s| ==> s[i] < s[j]
  }

  /** Ascending, duplicates allowed: what a numeric `sort((a, b) => a - b)` produces. */
  predicate Sorted(s: seq<int>)
  {
    forall i, j :: 0 <= i < j < |s| ==> s[i] <= s[j]
  }

  /** The elements of `s` that satisfy `p`, in their original order. */
  function Filter(s: seq<int>, p: int -> bool): (r: seq<int>)
    ensures |r| <= |s|
    ensures forall x :: x in r <==> x in s && p(x)
  {
    if s == [] then []
    else (if p(s[0]) then [s[0]] else []) + Filter(s[1..], p)
  }

  /** Filtering keeps a strictly increasing sequence strictly increasing. */
  lemma {:induction false} FilterIncreasing(s: seq<int>, p: int -> bool)
    requires StrictlyIncreasing(s)
    ensures StrictlyIncreasing(Filter(s, p))
  {
    if s != [] {
      FilterIncreasing(s[1..], p);
      var rest := Filter(s[1..], p);
      forall x | x in rest ensures s[0] < x {
        var k :| 0 <= k < |s[1..]| && s[1..][k] == x;
        assert s[k + 1] == x;
      }
      if p(s[0]) {
        var r := Filter(s, p);
        assert r == [s[0]] + rest;
        forall i, j | 0 <= i < j < |r| ensures r[i] < r[j] {
          if i == 0 {
            assert r[j] == rest[j - 1] && r[j] in rest;
          } else {
            assert r[i] == rest[i - 1] && r[j] == rest[j - 1];
          }
        }
      }
    }
  }

  /** A filter whose predicate holds everywhere returns its input. */
  lemma {:induction false} FilterAll(s: seq<int>, p: int -> bool)
    requires forall i :: 0 <= i < |s| ==> p(s[i])
    ensures Filter(s, p) == s
  {
    if s != [] {
      assert p(s[0]);
      assert forall i :: 0 <= i < |s[1..]| ==> s[1..][i] == s[i + 1];
      FilterAll(s[1..], p);
      assert [s[0]] + s[1..] == s;
    }
  }

  /** The elements of a sequence, as a set. */
  function Elements(s: seq<int>): set<int>
  {
    set x | x in s
  }

  /** A strictly increasing sequence has as many distinct elements as it is long. */
  lemma {:induction false} IncreasingCard(s: seq<int>)
    requires StrictlyIncreasing(s)
    ensures |Elements(s)| == |s|
  {
    if s != [] {
      IncreasingCard(s[1..]);
      var tail := Elements(s[1..]);
      assert Elements(s) == tail + {s[0]};
      assert s[0] !in tail;
    }
  }

  /** The head of a strictly increasing sequence is its least element. */
  lemma IncreasingHead(s: seq<int>, x: int)
    requires StrictlyIncreasing(s) && x in s
    ensures s[0] <= x
  {
    var k :| 0 <= k < |s| && s[k] == x;
  }

  /** Strictly increasing sequences with the same elements have the same length. */
  lemma IncreasingSameLength(a: seq<int>, b: seq<int>)
    requires StrictlyIncreasing(a) && StrictlyIncreasing(b)
    requires forall x :: x in a <==> x in b
    ensures |a| == |b|
  {
    IncreasingCard(a);
    IncreasingCard(b);
    assert Elements(a) == Elements(b);
  }

  /** Below a common head, strictly increasing sequences with the same elements have tails with the same elements. */
  lemma IncreasingSameTails(a: seq<int>, b: seq<int>)
    requires StrictlyIncreasing(a) && StrictlyIncreasing(b)
    requires forall x :: x in a <==> x in b
    requires a != [] && b != [] && a[0] == b[0]
    ensures forall x :: x in a[1..] <==> x in b[1..]
  {
    forall x ensures x in a[1..] <==> x in b[1..] {
      if x in a[1..] {
        var k :| 0 <= k < |a[1..]| && a[1..][k] == x;
        assert a[k + 1] == x && x in b;
        var m :| 0 <= m < |b| && b[m] == x;
        assert b[1..][m - 1] == x;
      }
      if x in b[1..] {
        var k :| 0 <= k < |b[1..]| && b[1..][k] == x;
        assert b[k + 1] == x && x in a;
        var m :| 0 <= m < |a| && a[m] == x;
        assert a[1..][m - 1] == x;
      }
    }
  }

  /** Two strictly increasing sequences with the same elements are equal. */
  lemma {:induction false} IncreasingUnique(a: seq<int>, b: seq<int>)
    requires StrictlyIncreasing(a) && StrictlyIncreasing(b)
    requires forall x :: x in a <==> x in b
    ensures a == b
  {
    IncreasingSameLength(a, b);
    if a != [] {
      assert a[0] in b && b[0] in a;
      IncreasingHead(b, a[0]);
      IncreasingHead(a, b[0]);
      IncreasingSameTails(a, b);
      IncreasingUnique(a[1..], b[1..]);
      assert a == [a[0]] + a[1..] && b == [b[0]] + b[1..];
    }
  }

  /** Putting a lower bound of an ascending sequence in front keeps it ascending. */
  lemma ConsSorted(h: int, r: seq<int>)
    requires Sorted(r) && forall y :: y in r ==> h <= y
    ensures Sorted([h] + r)
  {
    var whole := [h] + r;
    forall i, j | 0 <= i < j < |whole| ensures whole[i] <= whole[j] {
      if i == 0 {
        assert whole[j] == r[j - 1] && whole[j] in r;
      } else {
        assert whole[i] == r[i - 1] && whole[j] == r[j - 1];
      }
    }
  }

  /** The head of an ascending sequence is its least element. */
  lemma SortedHead(x: seq<int>, v: int)
    requires Sorted(x) && v in multiset(x)
    ensures x[0] <= v
  {
    var k :| 0 <= k < |x| && x[k] == v;
  }

  /** Removing the head of a sequence removes one copy of it from the multiset. */
  lemma MultisetTail(x: seq<int>)
    requires x != []
    ensures multiset(x[1..]) == multiset(x) - multiset{x[0]}
  {
    assert x == [x[0]] + x[1..];
  }

  lemma SortedTail(x: seq<int>)
    requires Sorted(x) && x != []
    ensures Sorted(x[1..])
  {
    forall i, j | 0 <= i < j < |x[1..]| ensures x[1..][i] <= x[1..][j] {
      assert x[1..][i] == x[i + 1] && x[1..][j] == x[j + 1];
    }
  }

  /** Ascending arrangements of one multiset start with the same element. */
  lemma SortedSameHead(x: seq<int>, y: seq<int>)
    requires Sorted(x) && Sorted(y) && multiset(x) == multiset(y) && x != [] && y != []
    ensures x[0] == y[0]
  {
    assert x[0] in multiset(x) && y[0] in multiset(y);
    SortedHead(x, y[0]);
    SortedHead(y, x[0]);
  }

  /** Ascending arrangements of one multiset have tails that are ascending arrangements of one multiset. */
  lemma SortedSameTails(x: seq<int>, y: seq<int>)
    requires Sorted(x) && Sorted(y) && multiset(x) == multiset(y) && x != [] && y != []
    ensures Sorted(x[1..]) && Sorted(y[1..]) && multiset(x[1..]) == multiset(y[1..])
  {
    SortedSameHead(x, y);
    MultisetTail(x);
    MultisetTail(y);
    SortedTail(x);
    SortedTail(y);
  }

  /** There is only one ascending arrangement of a multiset. */
  lemma {:induction false} SortedUnique(x: seq<int>, y: seq<int>)
    requires Sorted(x) && Sorted(y) && multiset(x) == multiset(y)
    ensures x == y
  {
    assert |x| == |multiset(x)| == |multiset(y)| == |y|;
    if x != [] {
      SortedSameHead(x, y);
      SortedSameTails(x, y);
      SortedUnique(x[1..], y[1..]);
      assert x == [x[0]] + x[1..] && y == [y[0]] + y[1..];
    }
  }

  /** `s` without the element at index `k` (JavaScript's `splice(k, 1)`). */
  function RemoveAt(s: seq<int>, k: nat): (r: seq<int>)
    requires k < |s|
    ensures |r| == |s| - 1
  {
    s[..k] + s[k + 1..]
  }

  /** Removing an entry keeps a strictly increasing sequence so, and drops exactly that element. */
  lemma RemoveAtFacts(s: seq<int>, k: nat)
    requires StrictlyIncreasing(s) && k < |s|
    ensures StrictlyIncreasing(RemoveAt(s, k))
    ensures forall x :: x in RemoveAt(s, k) <==> x in s && x != s[k]
  {
    var r := RemoveAt(s, k);
    forall i | 0 <= i < |r| ensures r[i] == if i < k then s[i] else s[i + 1] { }
    forall x | x in s && x != s[k] ensures x in r {
      var j :| 0 <= j < |s| && s[j] == x;
      if j < k { assert r[j] == x; } else { assert r[j - 1] == x; }
    }
  }

  /** No element occurs twice: a JavaScript `Set` kept in insertion order. */
  predicate Distinct(s: seq<int>)
  {
    forall i, j :: 0 <= i < j < |s| ==> s[i] != s[j]
  }

  /** Filtering keeps the elements distinct. */
  lemma {:induction false} FilterDistinct(s: seq<int>, p: int -> bool)
    requires Distinct(s)
    ensures Distinct(Filter(s, p))
  {
    if s != [] {
      FilterDistinct(s[1..], p);
      var rest := Filter(s[1..], p);
      if p(s[0]) {
        var r := Filter(s, p);
        assert r == [s[0]] + rest;
        assert s[0] !in s[1..] by {
          forall k | 0 <= k < |s[1..]| ensures s[1..][k] != s[0] {
            assert s[1..][k] == s[k + 1];
          }
        }
        forall i, j | 0 <= i < j < |r| ensures r[i] != r[j] {
          if i == 0 {
            assert r[j] == rest[j - 1] && r[j] in rest;
          } else {
            assert r[i] == rest[i - 1] && r[j] == rest[j - 1];
          }
        }
      }
    }
  }

  /** Strict lexicographic order: the order in which the search enumerates combinations. */
  predicate LexLess(a: seq<int>, b: seq<int>)
  {
    |a| > 0 && |b| > 0 && (a[0] < b[0] || (a[0] == b[0] && LexLess(a[1..], b[1..])))
  }

  /** Two sequences that agree before index `p` and differ upwards at `p` are in order. */
  lemma {:induction false} LexLessAt(a: seq<int>, b: seq<int>, p: nat)
    requires p < |a| && p < |b|
    requires a[..p] == b[..p] && a[p] < b[p]
    ensures LexLess(a, b)
  {
    if p > 0 {
      assert a[0] == a[..p][0] == b[..p][0] == b[0];
      assert a[1..][..p - 1] == a[..p][1..] == b[..p][1..] == b[1..][..p - 1];
      LexLessAt(a[1..], b[1..], p - 1);
    }
  }

  /** The lexicographic order is asymmetric, hence irreflexive. */
  lemma {:induction false} LexLessAsymmetric(a: seq<int>, b: seq<int>)
    ensures !(LexLess(a, b) && LexLess(b, a))
  {
    if |a| > 0 && |b| > 0 && a[0] == b[0] {
      LexLessAsymmetric(a[1..], b[1..]);
    }
  }

  /** Every pair of entries, earlier before later, is in strict lexicographic order. */
  ghost predicate LexSorted(cs: seq<seq<int>>)
  {
    forall i, j :: 0 <= i < j < |cs| ==> LexLess(cs[i], cs[j])
  }
}
