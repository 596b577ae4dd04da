/**
 Sequence helpers shared by the model: Java's `List.indexOf`, the
 "add unless already contained" idiom that every worklist and path list in
 the modelled code uses, and a bound on duplicate-free sequences.
 */
module Lists {

  /** No element occurs twice. */
  predicate Distinct<T(==)>(s: seq<T>)
  {
    forall i, j | 0 <= i < j < |s| :: s[i] != s[j]
  }

  /** Java's `List.indexOf`: the position of the first `x` in `s`, or -1. */
  function IndexOf<T(==)>(s: seq<T>, x: T): (r: int)
    ensures -1 <= r < |s|
    ensures r == -1 <==> x !in s
    ensures 0 <= r ==> s[r] == x && forall k | 0 <= k < r :: s[k] != x
  {
    if |s| == 0 then -1
    else if s[0] == x then 0
    else
      var k := IndexOf(s[1..], x);
      if k == -1 then -1 else k + 1
  }

  /** Appending an element does not move the first occurrence of anything already present. */
  lemma IndexOfAppend<T>(s: seq<T>, x: T, y: T)
    ensures y in s ==> IndexOf(s + [x], y) == IndexOf(s, y)
    ensures y !in s && y == x ==> IndexOf(s + [x], y) == |s|
  {
    var t := s + [x];
    assert forall k | 0 <= k < |s| :: t[k] == s[k];
  }

  /** `if (!list.contains(x)) list.add(x)` */
  function AppendIfAbsent<T(==)>(s: seq<T>, x: T): (r: seq<T>)
    ensures x in r
    ensures forall y | y in s :: y in r
    ensures forall y | y in r :: y in s || y == x
    ensures |s| <= |r| <= |s| + 1 && r[..|s|] == s
    ensures x in s <==> r == s
    ensures Distinct(s) ==> Distinct(r)
  {
    if x in s then s else s + [x]
  }

  /** Adds every element of `xs` that is not yet present, in the order of `xs`. */
  function AppendAllAbsent<T(==)>(s: seq<T>, xs: seq<T>): (r: seq<T>)
    ensures |s| <= |r| && r[..|s|] == s
    ensures forall y | y in s :: y in r
    ensures forall y | y in xs :: y in r
    ensures forall y | y in r :: y in s || y in xs
    ensures forall i | |s| <= i < |r| :: r[i] in xs && r[i] !in s
    ensures Distinct(s) ==> Distinct(r)
    ensures Distinct(r[|s|..])
    decreases |xs|
  {
    if |xs| == 0 then s
    else
      var s' := AppendIfAbsent(s, xs[0]);
      var r := AppendAllAbsent(s', xs[1..]);
      assert forall i | |s'| <= i < |r| :: r[i] in xs[1..];
      assert r[..|s|] == s'[..|s|];
      r
  }

  /** Dropping the last element of a concatenation drops it from the second part. */
  lemma InitOfAppend<T>(a: seq<T>, b: seq<T>)
    requires 0 < |b|
    ensures (a + b)[..|a + b| - 1] == a + b[..|b| - 1]
    ensures (a + b)[|a + b| - 1] == b[|b| - 1]
  {
  }

  lemma IndexOfTail<T>(xs: seq<T>, y: T)
    requires 0 < |xs| && y != xs[0] && y in xs[1..]
    ensures IndexOf(xs, y) == IndexOf(xs[1..], y) + 1 >= 1
  {
  }

  /** The added elements keep the order of `xs`. */
  lemma {:induction false} AppendAllAbsentOrder<T>(s: seq<T>, xs: seq<T>)
    ensures var r := AppendAllAbsent(s, xs);
            forall i, j | |s| <= i < j < |r| :: IndexOf(xs, r[i]) < IndexOf(xs, r[j])
    decreases |xs|
  {
    if |xs| > 0 {
      var s' := AppendIfAbsent(s, xs[0]);
      var r := AppendAllAbsent(s', xs[1..]);
      assert r == AppendAllAbsent(s, xs);
      AppendAllAbsentOrder(s', xs[1..]);
      forall i, j | |s| <= i < j < |r|
        ensures IndexOf(xs, r[i]) < IndexOf(xs, r[j])
      {
        OrderStep(s, xs, s', r, i, j);
      }
    }
  }

  lemma OrderStep<T>(s: seq<T>, xs: seq<T>, s': seq<T>, r: seq<T>, i: int, j: int)
    requires 0 < |xs| && s' == AppendIfAbsent(s, xs[0]) && r == AppendAllAbsent(s', xs[1..])
    requires |s'| <= i < j < |r| ==> IndexOf(xs[1..], r[i]) < IndexOf(xs[1..], r[j])
    requires |s| <= i < j < |r|
    ensures IndexOf(xs, r[i]) < IndexOf(xs, r[j])
  {
    assert r[j] in xs[1..] && r[j] !in s';
    IndexOfTail(xs, r[j]);
    if i < |s'| {
      assert r[i] == s'[i] == xs[0];
    } else {
      assert r[i] in xs[1..] && r[i] !in s';
      IndexOfTail(xs, r[i]);
    }
  }

  /** Adding elements that are all present already changes nothing. */
  lemma {:induction false} AppendAllPresent<T>(s: seq<T>, xs: seq<T>)
    requires forall x | x in xs :: x in s
    ensures AppendAllAbsent(s, xs) == s
    decreases |xs|
  {
    if |xs| > 0 {
      assert AppendIfAbsent(s, xs[0]) == s;
      assert forall x | x in xs[1..] :: x in xs;
      AppendAllPresent(s, xs[1..]);
    }
  }

  /** Dedup-appending the same elements a second time changes nothing. */
  lemma AppendAllIdempotent<T>(s: seq<T>, xs: seq<T>)
    ensures AppendAllAbsent(AppendAllAbsent(s, xs), xs) == AppendAllAbsent(s, xs)
  {
    AppendAllPresent(AppendAllAbsent(s, xs), xs);
  }

  /** A duplicate-free sequence drawn from a finite set is no longer than the set. */
  lemma {:induction false} DistinctBound<T>(s: seq<T>, u: set<T>)
    requires Distinct(s)
    requires forall x | x in s :: x in u
    ensures |s| <= |u|
    decreases |s|
  {
    if |s| > 0 {
      var last := s[|s| - 1];
      var init := s[..|s| - 1];
      assert forall x | x in init :: x in u - {last} by {
        forall x | x in init ensures x in u - {last} {
          var i :| 0 <= i < |init| && init[i] == x;
          assert s[i] == x;
        }
      }
      DistinctBound(init, u - {last});
    }
  }

  /**
   `r` is `s` with every later duplicate dropped: duplicate-free, the same
   elements, and in the order of their first occurrences in `s`.
   */
  ghost predicate KeepsFirstOccurrences<T>(r: seq<T>, s: seq<T>)
  {
    && Distinct(r)
    && (forall y | y in r :: y in s)
    && (forall y | y in s :: y in r)
    && forall i, j | 0 <= i < j < |r| :: IndexOf(s, r[i]) < IndexOf(s, r[j])
  }

  /** Scanning one more element with "add unless contained" keeps the first occurrences. */
  lemma KeepsFirstOccurrencesStep<T>(r: seq<T>, s: seq<T>, x: T)
    requires KeepsFirstOccurrences(r, s)
    ensures KeepsFirstOccurrences(AppendIfAbsent(r, x), s + [x])
  {
    var r' := AppendIfAbsent(r, x);
    forall y | y in r'
      ensures IndexOf(s + [x], y) == if y in s then IndexOf(s, y) else |s|
    {
      IndexOfAppend(s, x, y);
    }
    forall i, j | 0 <= i < j < |r'|
      ensures IndexOf(s + [x], r'[i]) < IndexOf(s + [x], r'[j])
    {
      if j == |r| {
        assert r'[i] == r[i];
      } else {
        assert r'[i] == r[i] && r'[j] == r[j];
      }
    }
  }

  /** `s` with every later duplicate dropped, built the way a scan with "add unless contained" builds it. */
  function Dedup<T(==)>(s: seq<T>): (r: seq<T>)
    ensures Distinct(r)
    decreases |s|
  {
    if |s| == 0 then [] else AppendIfAbsent(Dedup(s[..|s| - 1]), s[|s| - 1])
  }

  /** The scan keeps exactly the first occurrences. */
  lemma {:induction false} DedupKeepsFirstOccurrences<T>(s: seq<T>)
    ensures KeepsFirstOccurrences(Dedup(s), s)
    decreases |s|
  {
    if |s| > 0 {
      var init, last := s[..|s| - 1], s[|s| - 1];
      assert init + [last] == s;
      assert Dedup(s) == AppendIfAbsent(Dedup(init), last);
      DedupKeepsFirstOccurrences(init);
      KeepsFirstOccurrencesStep(Dedup(init), init, last);
    }
  }

  /** The first-occurrence order determines the sequence: two sequences that keep the first occurrences of `s` are equal. */
  lemma {:induction false} KeepsFirstOccurrencesUnique<T>(r1: seq<T>, r2: seq<T>, s: seq<T>)
    requires KeepsFirstOccurrences(r1, s) && KeepsFirstOccurrences(r2, s)
    ensures r1 == r2
  {
    SortedByFirstOccurrenceUnique(r1, r2, s);
  }

  lemma {:induction false} SortedByFirstOccurrenceUnique<T>(r1: seq<T>, r2: seq<T>, s: seq<T>)
    requires Distinct(r1) && Distinct(r2)
    requires forall y | y in r1 :: y in r2
    requires forall y | y in r2 :: y in r1
    requires forall i, j | 0 <= i < j < |r1| :: IndexOf(s, r1[i]) < IndexOf(s, r1[j])
    requires forall i, j | 0 <= i < j < |r2| :: IndexOf(s, r2[i]) < IndexOf(s, r2[j])
    ensures r1 == r2
    decreases |r1|
  {
    if |r1| == 0 {
      assert (set y | y in r1) == {};
      DistinctBound(r2, set y | y in r1);
    } else {
      assert r1[0] in r2;
      var a := r1[0];
      var b := r2[0];
      var k :| 0 <= k < |r2| && r2[k] == a;
      assert r2[0] in r2;
      assert b in r1;
      var m :| 0 <= m < |r1| && r1[m] == b;
      assert a == b;
      var t1 := r1[1..];
      var t2 := r2[1..];
      forall y | y in t1
        ensures y in t2
      {
        var i :| 0 <= i < |t1| && t1[i] == y;
        assert y == r1[i + 1] && y != a;
        assert y in r1;
        assert y in r2;
        var l :| 0 <= l < |r2| && r2[l] == y;
        assert l != 0;
        assert t2[l - 1] == y;
      }
      forall y | y in t2
        ensures y in t1
      {
        var i :| 0 <= i < |t2| && t2[i] == y;
        assert y == r2[i + 1] && y != b;
        assert y in r2;
        assert y in r1;
        var l :| 0 <= l < |r1| && r1[l] == y;
        assert l != 0;
        assert t1[l - 1] == y;
      }
      SortedByFirstOccurrenceUnique(t1, t2, s);
    }
  }
}
