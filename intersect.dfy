/** The `intersection` routine that both search engines share (search/mod.go and
    webmark-backend/search/mod.go hold the same code, once for `int` and once for
    `int64`), and the descending sort the file-backed engine applies to its results.

    `intersection` counts every element of the first slice, lowers each count to the
    element's count in every later slice (to 0 when it is missing there), and returns
    each element whose final count is positive, once. It then orders them by that
    count, an order this model does not fix (see the README). */
module Intersect {
  import opened Seqs

  /** How often `x` occurs in `s`. */
  function Occurrences(s: seq<int>, x: int): nat {
    multiset(s)[x]
  }

  predicate InAll(slices: seq<seq<int>>, x: int) {
    forall i :: 0 <= i < |slices| ==> x in slices[i]
  }

  /** The smallest number of times `x` occurs in any of the (at least one) slices:
      the count the source keeps for `x` after it has seen all of them. */
  function MinCount(slices: seq<seq<int>>, x: int): nat
    requires |slices| >= 1
  {
    if |slices| == 1 then Occurrences(slices[0], x)
    else
      var m := MinCount(slices[..|slices| - 1], x);
      var c := Occurrences(slices[|slices| - 1], x);
      if c < m then c else m
  }

  /** The count of `x` survives all slices exactly when `x` occurs in each of them. */
  lemma {:induction false} MinCountPositive(slices: seq<seq<int>>, x: int)
    requires |slices| >= 1
    ensures MinCount(slices, x) > 0 <==> InAll(slices, x)
  {
    if |slices| > 1 {
      var init := slices[..|slices| - 1];
      MinCountPositive(init, x);
      assert forall i :: 0 <= i < |init| ==> init[i] == slices[i];
    }
  }

  /** The counting loop `for _, e := range s { count[e]++ }`. */
  method CountOccurrences(s: seq<int>) returns (count: map<int, nat>)
    ensures forall x :: x in count <==> x in s
    ensures forall x :: x in count ==> count[x] == Occurrences(s, x)
  {
    count := map[];
    for i := 0 to |s|
      invariant forall x :: x in count <==> x in s[..i]
      invariant forall x :: x in count ==> count[x] == Occurrences(s[..i], x)
    {
      var e := s[i];
      assert s[..i + 1] == s[..i] + [e];
      count := count[e := (if e in count then count[e] else 0) + 1];
    }
    assert s[..|s|] == s;
  }

  /** `intersection(slices)`: the elements that occur in every slice, each once;
      nothing at all for an empty list of slices. */
  method Intersection(slices: seq<seq<int>>) returns (r: seq<int>)
    ensures |slices| == 0 ==> r == []
    ensures Distinct(r)
    ensures forall x :: x in r <==> |slices| > 0 && InAll(slices, x)
  {
    if |slices| == 0 {
      return [];
    }
    var count := CountOccurrences(slices[0]);
    ghost var first := count.Keys;
    var j := 1;
    while j < |slices|
      invariant 1 <= j <= |slices|
      invariant count.Keys == first
      invariant forall x :: x in count ==> count[x] == MinCount(slices[..j], x)
    {
      var current := CountOccurrences(slices[j]);
      ghost var before := count;
      var pending := count.Keys;
      while pending != {}
        invariant pending <= count.Keys == before.Keys
        invariant forall x :: x in pending ==> count[x] == before[x]
        invariant forall x :: x in count && x !in pending ==>
          count[x] == (var c := Occurrences(slices[j], x); if c < before[x] then c else before[x])
      {
        if forall x :: x !in pending { assert false; }
        var e :| e in pending;
        if e in current {
          if current[e] < count[e] {
            count := count[e := current[e]];
          }
        } else {
          count := count[e := 0];
        }
        pending := pending - {e};
      }
      assert slices[..j + 1][..j] == slices[..j];
      j := j + 1;
    }
    assert slices[..|slices|] == slices;
    r := [];
    var pending := count.Keys;
    while pending != {}
      invariant pending <= count.Keys
      invariant Distinct(r)
      invariant forall x :: x in r ==> x !in pending
      invariant forall x :: x in r <==> x in count && x !in pending && count[x] > 0
    {
      if forall x :: x !in pending { assert false; }
      var e :| e in pending;
      if count[e] > 0 {
        r := r + [e];
      }
      pending := pending - {e};
    }
    forall x
      ensures x in r <==> InAll(slices, x)
    {
      if x in count {
        MinCountPositive(slices, x);
      }
    }
  }

  /** Non-increasing order, the order `sort.Slice` with `a[i] > a[j]` produces. */
  predicate NonIncreasing(s: seq<int>) {
    forall i, j :: 0 <= i < j < |s| ==> s[i] >= s[j]
  }

  predicate StrictlyDecreasing(s: seq<int>) {
    forall i, j :: 0 <= i < j < |s| ==> s[i] > s[j]
  }

  function InsertDescending(x: int, s: seq<int>): (r: seq<int>)
    requires NonIncreasing(s)
    ensures NonIncreasing(r)
    ensures multiset(r) == multiset(s) + multiset{x}
  {
    if s == [] || x >= s[0] then
      ConsDescending(x, s, s);
      [x] + s
    else
      var t := InsertDescending(x, s[1..]);
      InsertBelowHead(s, x, t);
      [s[0]] + t
  }

  /** Putting `a` in front of a non-increasing sequence of elements no larger than it. */
  lemma ConsDescending(a: int, t: seq<int>, s: seq<int>)
    requires NonIncreasing(t) && NonIncreasing(s) && multiset(t) <= multiset(s)
    requires s != [] ==> a >= s[0]
    ensures NonIncreasing([a] + t)
  {
    forall i | 0 <= i < |t|
      ensures a >= t[i]
    {
      assert t[i] in multiset(s);
      var j :| 0 <= j < |s| && s[j] == t[i];
      assert s[0] >= s[j] || j == 0;
    }
  }

  /** The recursive case of `InsertDescending`: `x` goes below the head. */
  lemma InsertBelowHead(s: seq<int>, x: int, t: seq<int>)
    requires s != [] && x < s[0] && NonIncreasing(s)
    requires NonIncreasing(t) && multiset(t) == multiset(s[1..]) + multiset{x}
    ensures NonIncreasing([s[0]] + t)
    ensures multiset([s[0]] + t) == multiset(s) + multiset{x}
  {
    assert s == [s[0]] + s[1..];
    forall i | 0 <= i < |t|
      ensures s[0] >= t[i]
    {
      assert t[i] in multiset(s[1..]) + multiset{x};
      if t[i] != x {
        var j :| 0 <= j < |s[1..]| && s[1..][j] == t[i];
        assert s[j + 1] == t[i];
      }
    }
  }

  /** `sort.Slice(ids, func(i, j int) bool { return ids[i] > ids[j] })`: the same
      elements, largest first. */
  function SortDescending(s: seq<int>): (r: seq<int>)
    ensures NonIncreasing(r)
    ensures multiset(r) == multiset(s)
  {
    if s == [] then []
    else
      assert s == [s[0]] + s[1..];
      InsertDescending(s[0], SortDescending(s[1..]))
  }

  lemma HasMaximum(s: set<int>)
    requires s != {}
    ensures exists m :: m in s && forall y :: y in s ==> y <= m
  {
    var top := MaxOf(s);
  }

  /** The largest element of a non-empty finite set. */
  lemma {:induction false} MaxOf(s: set<int>) returns (top: int)
    requires s != {}
    ensures top in s && forall y :: y in s ==> y <= top
    decreases |s|
  {
    if forall y :: y !in s { assert false; }
    var x :| x in s;
    if s == {x} {
      top := x;
    } else {
      var m := MaxOf(s - {x});
      top := if x > m then x else m;
      MaxOfAdd(s, x, m);
    }
  }

  lemma MaxOfAdd(s: set<int>, x: int, m: int)
    requires x in s && m in s - {x} && forall y :: y in s - {x} ==> y <= m
    ensures var top := if x > m then x else m;
      top in s && forall y :: y in s ==> y <= top
  {
    forall y | y in s && y != x
      ensures y <= m
    {
      assert y in s - {x};
    }
  }

  /** The elements of a finite set, largest first: the order of `Search` results. */
  ghost function Descending(s: set<int>): (r: seq<int>)
    ensures StrictlyDecreasing(r)
    ensures forall x :: x in r <==> x in s
    ensures |r| == |s|
    decreases |s|
  {
    if s == {} then []
    else
      HasMaximum(s);
      var m :| m in s && (forall y :: y in s ==> y <= m);
      var rest := Descending(s - {m});
      assert forall i :: 0 <= i < |rest| ==> rest[i] < m;
      [m] + rest
  }

  lemma SameElementsEmpty(a: seq<int>, b: seq<int>)
    requires forall x :: x in a <==> x in b
    ensures a == [] <==> b == []
  {
    if a != [] {
      var x := a[0];
      assert x in a && x in b;
    }
    if b != [] {
      var x := b[0];
      assert x in b && x in a;
    }
  }

  /** A strictly decreasing sequence is determined by its set of elements. */
  lemma {:induction false} StrictlyDecreasingUnique(a: seq<int>, b: seq<int>)
    requires StrictlyDecreasing(a) && StrictlyDecreasing(b)
    requires forall x :: x in a <==> x in b
    ensures a == b
  {
    SameElementsEmpty(a, b);
    if a != [] {
      assert b[0] in a && a[0] in b;
      var i :| 0 <= i < |a| && a[i] == b[0];
      assert a[0] >= a[i];
      var k :| 0 <= k < |b| && b[k] == a[0];
      assert b[0] >= b[k];
      forall x
        ensures x in a[1..] <==> x in b[1..]
      {
        if x in a[1..] {
          var i :| 1 <= i < |a| && a[i] == x;
          assert a[0] > x;
          assert x in b;
        }
        if x in b[1..] {
          var i :| 1 <= i < |b| && b[i] == x;
          assert b[0] > x;
          assert x in a;
        }
      }
      StrictlyDecreasingUnique(a[1..], b[1..]);
      assert a == [a[0]] + a[1..] && b == [b[0]] + b[1..];
    }
  }

  /** In a sequence without repetitions every element occurs at most once. */
  lemma {:induction false} DistinctCounts(s: seq<int>)
    requires Distinct(s)
    ensures forall x :: multiset(s)[x] <= 1
  {
    if s != [] {
      var init := s[..|s| - 1];
      DistinctCounts(init);
      assert s == init + [s[|s| - 1]];
      assert s[|s| - 1] !in init;
    }
  }

  lemma CountsDistinct(r: seq<int>)
    requires forall x :: multiset(r)[x] <= 1
    ensures Distinct(r)
  {
    forall i, j | 0 <= i < j < |r|
      ensures r[i] != r[j]
    {
      assert r == r[..i] + [r[i]] + r[i + 1..j] + [r[j]] + r[j + 1..];
      assert multiset(r)[r[i]] >= 1 + multiset{r[j]}[r[i]];
    }
  }

  /** Sorting distinct ids largest first gives the descending order of their set. */
  lemma SortDescendingDistinct(s: seq<int>)
    requires Distinct(s)
    ensures SortDescending(s) == Descending(set x | x in s)
  {
    var r := SortDescending(s);
    DistinctCounts(s);
    CountsDistinct(r);
    forall x
      ensures x in r <==> x in (set y | y in s)
    {
      assert x in r <==> x in multiset(r);
      assert x in s <==> x in multiset(s);
    }
    StrictlyDecreasingUnique(r, Descending(set x | x in s));
  }
}
