/** The DataFrame operations the pipeline uses, given their relational meaning
    over finite sequences of rows: filter, select (projection), distinct,
    inner join and ordering by a nullable integer column. */
module Relational {
  import opened Options

  /** No row occurs twice. */
  predicate NoDuplicates<T(==,!new)>(s: seq<T>)
  {
    forall i, j :: 0 <= i < j < |s| ==> s[i] != s[j]
  }

  /** Number of rows satisfying `p`: a reference count for `Filter`. */
  function Count<T>(s: seq<T>, p: T -> bool): nat
  {
    if |s| == 0 then 0 else (if p(s[0]) then 1 else 0) + Count(s[1..], p)
  }

  /** `filter` / `na.drop`: keeps the rows satisfying `keep`, in order. */
  function Filter<T(==,!new)>(s: seq<T>, keep: T -> bool): (r: seq<T>)
    ensures forall x :: x in r <==> x in s && keep(x)
  {
    if |s| == 0 then []
    else if keep(s[0]) then [s[0]] + Filter(s[1..], keep) else Filter(s[1..], keep)
  }

  /** `select` and `withColumn`: every row is mapped, in place. */
  function Project<T(==,!new), U(==,!new)>(s: seq<T>, f: T -> U): (r: seq<U>)
    ensures |r| == |s|
    ensures forall i :: 0 <= i < |s| ==> r[i] == f(s[i])
    ensures forall y :: y in r <==> exists x :: x in s && f(x) == y
  {
    seq(|s|, i requires 0 <= i < |s| => f(s[i]))
  }

  /** `distinct`: whole-row deduplication. The engine gives no order; this
      model keeps first occurrences. */
  function Distinct<T(==,!new)>(s: seq<T>): (r: seq<T>)
    ensures NoDuplicates(r)
    ensures forall x :: x in r <==> x in s
  {
    if |s| == 0 then []
    else
      var rest := Distinct(s[..|s| - 1]);
      var last := s[|s| - 1];
      assert s == s[..|s| - 1] + [last];
      if last in rest then rest else rest + [last]
  }

  lemma {:induction false} FilterLength<T(!new)>(s: seq<T>, p: T -> bool)
    ensures |Filter(s, p)| == Count(s, p)
  {
    if |s| > 0 {
      FilterLength(s[1..], p);
    }
  }

  /** Filtering is compositional over appending one row. */
  lemma {:induction false} FilterAppend<T(!new)>(s: seq<T>, x: T, keep: T -> bool)
    ensures Filter(s + [x], keep) == Filter(s, keep) + (if keep(x) then [x] else [])
  {
    if |s| == 0 {
      assert s + [x] == [x];
    } else {
      var t := s + [x];
      assert t[0] == s[0];
      assert t[1..] == s[1..] + [x];
      FilterAppend(s[1..], x, keep);
    }
  }

  /** Filtering twice is filtering once by the conjunction. */
  lemma {:induction false} FilterTwice<T(!new)>(s: seq<T>, p: T -> bool, q: T -> bool, both: T -> bool)
    requires forall x :: both(x) == (p(x) && q(x))
    ensures Filter(Filter(s, p), q) == Filter(s, both)
  {
    if |s| > 0 {
      FilterTwice(s[1..], p, q, both);
    }
  }

  lemma ConsNoDuplicates<T(!new)>(x: T, t: seq<T>)
    requires x !in t && NoDuplicates(t)
    ensures NoDuplicates([x] + t)
  {
  }

  /** Dropping rows never creates a duplicate. */
  lemma {:induction false} FilterKeepsNoDuplicates<T(!new)>(s: seq<T>, keep: T -> bool)
    requires NoDuplicates(s)
    ensures NoDuplicates(Filter(s, keep))
  {
    if |s| > 0 {
      FilterKeepsNoDuplicates(s[1..], keep);
      assert s[0] !in s[1..] by {
        forall k | 0 <= k < |s[1..]|
          ensures s[1..][k] != s[0]
        {
          assert s[1..][k] == s[k + 1];
        }
      }
      if keep(s[0]) {
        ConsNoDuplicates(s[0], Filter(s[1..], keep));
      }
    }
  }

  /** A rewrite `f` followed by a filter `p` equals the filter `q` alone when
      `p` after `f` is `q` and `f` leaves every row `q` keeps unchanged. */
  lemma {:induction false} FilterAfterProject<T(!new)>(s: seq<T>, f: T -> T, p: T -> bool, q: T -> bool)
    requires forall x :: p(f(x)) == q(x)
    requires forall x :: q(x) ==> f(x) == x
    ensures Filter(Project(s, f), p) == Filter(s, q)
  {
    if |s| > 0 {
      assert Project(s, f)[1..] == Project(s[1..], f);
      FilterAfterProject(s[1..], f, p, q);
    }
  }

  // ---------------------------------------------------------------------
  // Inner equi-join

  /** The join rows contributed by one right-hand row `b`: one per matching
      left row, in left order. */
  function Pairs<A(==,!new), B(==,!new)>(left: seq<A>, b: B, on: (A, B) -> bool): (r: seq<(A, B)>)
    ensures forall x :: x in r <==> x.0 in left && x.1 == b && on(x.0, x.1)
  {
    if |left| == 0 then []
    else if on(left[0], b) then [(left[0], b)] + Pairs(left[1..], b, on)
    else Pairs(left[1..], b, on)
  }

  /** Inner join of `left` and `right` on the predicate `on`. The engine gives
      no order; this model lists the rows right row by right row. */
  function Join<A(==,!new), B(==,!new)>(left: seq<A>, right: seq<B>, on: (A, B) -> bool): (r: seq<(A, B)>)
    ensures forall x :: x in r <==> x.0 in left && x.1 in right && on(x.0, x.1)
  {
    if |right| == 0 then []
    else
      assert right == [right[0]] + right[1..];
      Pairs(left, right[0], on) + Join(left, right[1..], on)
  }

  // `PartnerCount` and `MatchCount` are `Count` with one side of the join
  // fixed. They are written out rather than as `Count` of a lambda so that
  // their inductive proofs never have to equate two lambda values.

  /** Number of left rows that match `b`: the fan-out of `b`. */
  function PartnerCount<A, B>(left: seq<A>, b: B, on: (A, B) -> bool): nat
  {
    if |left| == 0 then 0 else (if on(left[0], b) then 1 else 0) + PartnerCount(left[1..], b, on)
  }

  /** Number of right rows that match `a`. */
  function MatchCount<A, B>(a: A, right: seq<B>, on: (A, B) -> bool): nat
  {
    if |right| == 0 then 0 else (if on(a, right[0]) then 1 else 0) + MatchCount(a, right[1..], on)
  }

  /** Number of index pairs (i, j) with `on(left[i], right[j])`, counted left
      row by left row: a reference count independent of `Join`'s layout. */
  function PairCount<A, B>(left: seq<A>, right: seq<B>, on: (A, B) -> bool): nat
  {
    if |left| == 0 then 0 else MatchCount(left[0], right, on) + PairCount(left[1..], right, on)
  }

  lemma {:induction false} PairsLength<A(!new), B(!new)>(left: seq<A>, b: B, on: (A, B) -> bool)
    ensures |Pairs(left, b, on)| == PartnerCount(left, b, on)
  {
    if |left| > 0 {
      PairsLength(left[1..], b, on);
    }
  }

  lemma {:induction false} PairCountFirstRight<A, B>(left: seq<A>, right: seq<B>, on: (A, B) -> bool)
    requires |right| > 0
    ensures PairCount(left, right, on) == PartnerCount(left, right[0], on) + PairCount(left, right[1..], on)
  {
    if |left| > 0 {
      PairCountFirstRight(left[1..], right, on);
    }
  }

  /** The join has exactly one row per matching index pair. */
  lemma {:induction false} JoinLength<A(!new), B(!new)>(left: seq<A>, right: seq<B>, on: (A, B) -> bool)
    ensures |Join(left, right, on)| == PairCount(left, right, on)
  {
    if |right| == 0 {
      PairCountNoRight(left, right, on);
    } else {
      PairsLength(left, right[0], on);
      JoinLength(left, right[1..], on);
      PairCountFirstRight(left, right, on);
    }
  }

  lemma {:induction false} PairCountNoRight<A, B>(left: seq<A>, right: seq<B>, on: (A, B) -> bool)
    requires |right| == 0
    ensures PairCount(left, right, on) == 0
  {
    if |left| > 0 {
      PairCountNoRight(left[1..], right, on);
    }
  }

  lemma {:induction false} PairsMultiplicity<A(!new), B(!new)>(left: seq<A>, b: B, on: (A, B) -> bool, x: (A, B))
    ensures multiset(Pairs(left, b, on))[x] == if x.1 == b && on(x.0, b) then multiset(left)[x.0] else 0
  {
    if |left| > 0 {
      assert left == [left[0]] + left[1..];
      PairsMultiplicity(left[1..], b, on, x);
    }
  }

  /** Fan-out: a matching pair of rows occurs in the join once for every
      occurrence of its left row times every occurrence of its right row; a
      non-matching pair does not occur. */
  lemma {:induction false} JoinMultiplicity<A(!new), B(!new)>(left: seq<A>, right: seq<B>, on: (A, B) -> bool, a: A, b: B)
    ensures multiset(Join(left, right, on))[(a, b)] ==
            if on(a, b) then multiset(left)[a] * multiset(right)[b] else 0
  {
    if |right| > 0 {
      var rest := right[1..];
      assert right == [right[0]] + rest;
      PairsMultiplicity(left, right[0], on, (a, b));
      JoinMultiplicity(left, rest, on, a, b);
      var here := if b == right[0] then 1 else 0;
      assert multiset(right)[b] == here + multiset(rest)[b];
      if on(a, b) {
        calc {
          multiset(Join(left, right, on))[(a, b)];
          multiset(left)[a] * here + multiset(left)[a] * multiset(rest)[b];
          { MulDistributes(multiset(left)[a], here, multiset(rest)[b]); }
          multiset(left)[a] * multiset(right)[b];
        }
      }
    }
  }

  lemma MulDistributes(k: int, x: int, y: int)
    ensures k * x + k * y == k * (x + y)
  {
  }

  lemma SumOfProducts(total: int, first: int, rest: int, x: int, y: int, xy: int, k: int)
    requires total == first + rest && first == x * k && rest == y * k && xy == x + y
    ensures total == xy * k
  {
  }

  lemma {:induction false} CountAppend<T>(s: seq<T>, t: seq<T>, p: T -> bool)
    ensures Count(s + t, p) == Count(s, p) + Count(t, p)
  {
    if |s| > 0 {
      assert (s + t)[1..] == s[1..] + t;
      CountAppend(s[1..], t, p);
    } else {
      assert s + t == t;
    }
  }

  /** Taking out the row at index `k` takes one occurrence of it out of the multiset. */
  lemma RemoveAt<T>(t: seq<T>, k: nat)
    requires k < |t|
    ensures multiset(t[..k] + t[k + 1..]) == multiset(t) - multiset{t[k]}
  {
    assert t == t[..k] + [t[k]] + t[k + 1..];
  }

  /** Taking out one row lowers a count by one exactly when the row satisfies it. */
  lemma RemovedCount<T>(front: seq<T>, x: T, back: seq<T>, p: T -> bool)
    ensures Count(front + ([x] + back), p) == Count(front + back, p) + (if p(x) then 1 else 0)
  {
    CountAppend(front, [x] + back, p);
    CountAppend([x], back, p);
    CountAppend(front, back, p);
  }

  /** A count depends only on which rows occur how often, not on their order. */
  lemma {:induction false} CountPermutation<T(!new)>(s: seq<T>, t: seq<T>, p: T -> bool)
    requires multiset(s) == multiset(t)
    ensures Count(s, p) == Count(t, p)
  {
    if |s| == 0 {
      assert |t| == |multiset(t)| == 0;
    } else {
      assert s[0] in multiset(t);
      var k :| 0 <= k < |t| && t[k] == s[0];
      RemoveAt(t, k);
      assert t == t[..k] + ([t[k]] + t[k + 1..]);
      RemovedCount(t[..k], t[k], t[k + 1..], p);
      assert s == [s[0]] + s[1..];
      assert multiset(s[1..]) == multiset(s) - multiset{s[0]};
      CountPermutation(s[1..], t[..k] + t[k + 1..], p);
    }
  }

  lemma {:induction false} PairsRightCount<A(!new), B(!new)>(left: seq<A>, b0: B, on: (A, B) -> bool, b: B, isB: ((A, B)) -> bool)
    requires forall x :: isB(x) == (x.1 == b)
    ensures Count(Pairs(left, b0, on), isB) == if b0 == b then PartnerCount(left, b, on) else 0
  {
    if |left| > 0 {
      PairsRightCount(left[1..], b0, on, b, isB);
      if on(left[0], b0) {
        CountAppend([(left[0], b0)], Pairs(left[1..], b0, on), isB);
      }
    }
  }

  /** Fan-out per right row: the join holds `PartnerCount(left, b, on)` rows
      for each occurrence of `b` in `right`, so a right row matching k left
      rows yields k rows and one matching none yields none. `isB` tells
      whether a join row's right part is `b`. */
  lemma {:induction false} JoinFanOut<A(!new), B(!new)>(left: seq<A>, right: seq<B>, on: (A, B) -> bool, b: B, isB: ((A, B)) -> bool)
    requires forall x :: isB(x) == (x.1 == b)
    ensures Count(Join(left, right, on), isB) == multiset(right)[b] * PartnerCount(left, b, on)
  {
    if |right| > 0 {
      var rest := right[1..];
      assert right == [right[0]] + rest;
      var k := PartnerCount(left, b, on);
      var here := if right[0] == b then 1 else 0;
      assert Join(left, right, on) == Pairs(left, right[0], on) + Join(left, rest, on);
      CountAppend(Pairs(left, right[0], on), Join(left, rest, on), isB);
      PairsRightCount(left, right[0], on, b, isB);
      JoinFanOut(left, rest, on, b, isB);
      assert multiset(right)[b] == here + multiset(rest)[b];
      SumOfProducts(Count(Join(left, right, on), isB), Count(Pairs(left, right[0], on), isB),
                    Count(Join(left, rest, on), isB), here, multiset(rest)[b], multiset(right)[b], k);
    }
  }

  // ---------------------------------------------------------------------
  // Ordering by a nullable integer column, ascending with nulls first

  /** `a <= b` in an ascending sort that puts nulls first. */
  predicate NullsFirstLe(a: Option<int>, b: Option<int>)
  {
    a.None? || (b.Some? && a.value <= b.value)
  }

  /** The rows are in ascending `key` order, nulls first. */
  predicate SortedBy<T>(s: seq<T>, key: T -> Option<int>)
  {
    forall i, j :: 0 <= i < j < |s| ==> NullsFirstLe(key(s[i]), key(s[j]))
  }

  /** A row whose key is at most every key of a sorted sequence can go in front. */
  lemma SortedCons<T>(h: T, t: seq<T>, key: T -> Option<int>)
    requires SortedBy(t, key)
    requires forall k :: 0 <= k < |t| ==> NullsFirstLe(key(h), key(t[k]))
    ensures SortedBy([h] + t, key)
  {
  }

  function InsertBy<T(==,!new)>(x: T, s: seq<T>, key: T -> Option<int>): (r: seq<T>)
    requires SortedBy(s, key)
    ensures multiset(r) == multiset(s) + multiset{x}
    ensures forall y :: y in r ==> y == x || y in s
    ensures SortedBy(r, key)
  {
    if |s| == 0 then [x]
    else if NullsFirstLe(key(x), key(s[0])) then
      SortedCons(x, s, key);
      [x] + s
    else
      assert s == [s[0]] + s[1..];
      var tail := InsertBy(x, s[1..], key);
      assert forall k :: 0 <= k < |tail| ==> NullsFirstLe(key(s[0]), key(tail[k])) by {
        forall k | 0 <= k < |tail|
          ensures NullsFirstLe(key(s[0]), key(tail[k]))
        {
          assert tail[k] in tail;
          if tail[k] != x {
            var m :| 0 <= m < |s[1..]| && s[1..][m] == tail[k];
            assert s[m + 1] == tail[k];
          }
        }
      }
      SortedCons(s[0], tail, key);
      [s[0]] + tail
  }

  /** One ascending, nulls-first sort by `key` (an insertion sort; among equal
      keys it is one of the orders the engine may choose). */
  function SortBy<T(==,!new)>(s: seq<T>, key: T -> Option<int>): (r: seq<T>)
    ensures SortedBy(r, key)
    ensures multiset(r) == multiset(s)
  {
    if |s| == 0 then []
    else
      assert s == [s[0]] + s[1..];
      InsertBy(s[0], SortBy(s[1..], key), key)
  }
}
