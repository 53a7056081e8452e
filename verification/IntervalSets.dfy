/**
 The sorted list of disjoint intervals that records received packet numbers
 (quic/common/IntervalSet.h and quic/common/IntervalSet-inl.h), for an unsigned 64-bit
 `T` and a unit of one.
 */
module IntervalSets {

  const MAX: nat := 0xFFFF_FFFF_FFFF_FFFF

  datatype Interval = Interval(start: nat, end: nat) {
    predicate Has(n: int) { start <= n <= end }
    /** What the interval's constructor checks: `end + 1` still fits. */
    predicate Fits() { start <= end && end <= MAX - 1 }
  }

  datatype IntervalSetError = NoError | InvalidInterval | IntervalBoundTooLarge

  /** Sorted, disjoint, and not even adjacent. */
  ghost predicate Canonical(xs: seq<Interval>) {
    && (forall i :: 0 <= i < |xs| ==> xs[i].Fits())
    && (forall i, j :: 0 <= i < j < |xs| ==> xs[i].end + 1 < xs[j].start)
  }

  /** The set the list stands for. */
  ghost predicate Has(xs: seq<Interval>, n: int) { exists i :: 0 <= i < |xs| && xs[i].Has(n) }

  ghost predicate SameSet(xs: seq<Interval>, ys: seq<Interval>) { forall n: int :: Has(xs, n) <==> Has(ys, n) }

  // ------------------------------------------------------------------ the list is determined by the set

  lemma HasFirst(xs: seq<Interval>)
    requires Canonical(xs) && xs != []
    ensures Has(xs, xs[0].start) && forall n: int :: Has(xs, n) ==> xs[0].start <= n
  {
    assert xs[0].Has(xs[0].start);
    forall n: int | Has(xs, n) ensures xs[0].start <= n {
      var i :| 0 <= i < |xs| && xs[i].Has(n);
      assert i == 0 || xs[0].end + 1 < xs[i].start;
    }
  }

  /** The ends of the list are the least and the greatest member. */
  lemma FrontAndBack(xs: seq<Interval>)
    requires Canonical(xs) && xs != []
    ensures Has(xs, xs[0].start) && Has(xs, xs[|xs| - 1].end)
    ensures forall n: int :: Has(xs, n) ==> xs[0].start <= n <= xs[|xs| - 1].end
  {
    HasFirst(xs);
    var l := |xs| - 1;
    assert xs[l].Has(xs[l].end);
    forall n: int | Has(xs, n) ensures n <= xs[l].end {
      var i :| 0 <= i < |xs| && xs[i].Has(n);
      assert i == l || xs[i].end + 1 < xs[l].start;
    }
  }

  lemma AfterFirst(xs: seq<Interval>, n: int)
    requires Canonical(xs) && xs != [] && xs[0].start <= n
    ensures Has(xs, n) <==> n <= xs[0].end || Has(xs[1..], n)
    ensures n <= xs[0].end + 1 ==> !Has(xs[1..], n)
  {
    assert xs == [xs[0]] + xs[1..];
    assert forall i :: 0 < i < |xs| ==> xs[i] == xs[1..][i - 1] && xs[0].end + 1 < xs[i].start;
    if n <= xs[0].end { assert xs[0].Has(n); }
    if i :| 0 <= i < |xs[1..]| && xs[1..][i].Has(n) { assert xs[i + 1].Has(n); }
  }

  lemma TailSame(xs: seq<Interval>, ys: seq<Interval>)
    requires Canonical(xs) && Canonical(ys) && xs != [] && ys != [] && xs[0] == ys[0] && SameSet(xs, ys)
    ensures SameSet(xs[1..], ys[1..])
  {
    forall n: int ensures Has(xs[1..], n) <==> Has(ys[1..], n) {
      if n < xs[0].start {
        assert forall i :: 0 <= i < |xs[1..]| ==> xs[1..][i] == xs[i + 1] && xs[0].end + 1 < xs[i + 1].start;
        assert forall i :: 0 <= i < |ys[1..]| ==> ys[1..][i] == ys[i + 1] && ys[0].end + 1 < ys[i + 1].start;
      } else {
        AfterFirst(xs, n);
        AfterFirst(ys, n);
        assert Has(xs, n) <==> Has(ys, n);
      }
    }
  }

  lemma FirstSame(xs: seq<Interval>, ys: seq<Interval>)
    requires Canonical(xs) && Canonical(ys) && xs != [] && ys != [] && SameSet(xs, ys)
    ensures xs[0] == ys[0]
  {
    hide Has;
    HasFirst(xs);
    HasFirst(ys);
    assert Has(ys, xs[0].start) && Has(xs, ys[0].start);
    var x, y := xs[0].end + 1, ys[0].end + 1;
    AfterFirst(xs, x);
    AfterFirst(xs, y - 1);
    AfterFirst(ys, y);
    AfterFirst(ys, x - 1);
    assert !Has(xs, x) && !Has(ys, y);
    AfterFirst(ys, x);
    AfterFirst(xs, y);
    assert (Has(ys, x) <==> Has(xs, x)) && (Has(ys, y) <==> Has(xs, y));
  }

  /** Two lists that stand for the same set are equal, so `operator==` compares sets. */
  lemma {:induction false} CanonicalIsUnique(xs: seq<Interval>, ys: seq<Interval>)
    requires Canonical(xs) && Canonical(ys)
    ensures SameSet(xs, ys) <==> xs == ys
    decreases |xs|
  {
    if SameSet(xs, ys) {
      if xs == [] || ys == [] {
        if xs != [] { HasFirst(xs); }
        if ys != [] { HasFirst(ys); }
      } else {
        FirstSame(xs, ys);
        TailSame(xs, ys);
        CanonicalIsUnique(xs[1..], ys[1..]);
        assert xs == [xs[0]] + xs[1..] && ys == [ys[0]] + ys[1..];
      }
    }
  }

  // ------------------------------------------------------------------ the intersecting range

  /** `f..e` are the intervals that overlap or touch `iv`. */
  ghost predicate Touching(xs: seq<Interval>, iv: Interval, f: nat, e: nat) {
    && f <= e <= |xs|
    && (forall i :: 0 <= i < f ==> xs[i].end + 1 < iv.start)
    && (forall i :: f <= i < e ==> xs[i].end + 1 >= iv.start && xs[i].start <= iv.end + 1)
    && (forall i :: e <= i < |xs| ==> xs[i].start > iv.end + 1)
  }

  /** The merged interval. */
  function Merged(xs: seq<Interval>, iv: Interval, f: nat, e: nat): Interval
    requires f <= e <= |xs|
  {
    if f == e then iv
    else Interval(if iv.start < xs[f].start then iv.start else xs[f].start,
                  if iv.end > xs[e - 1].end then iv.end else xs[e - 1].end)
  }

  lemma MergedHas(xs: seq<Interval>, iv: Interval, f: nat, e: nat, n: int)
    requires Canonical(xs) && iv.Fits() && Touching(xs, iv, f, e)
    ensures Merged(xs, iv, f, e).Has(n) <==> iv.Has(n) || exists i :: f <= i < e && xs[i].Has(n)
  {
    if f < e {
      if n < iv.start && Merged(xs, iv, f, e).Has(n) { assert xs[f].Has(n); }
      if n > iv.end && Merged(xs, iv, f, e).Has(n) { assert xs[e - 1].Has(n); }
      if i :| f <= i < e && xs[i].Has(n) {
        assert (i == f || xs[f].end + 1 < xs[i].start) && (i == e - 1 || xs[i].end + 1 < xs[e - 1].start);
      }
    }
  }

  /** Replacing `f..e` by new intervals replaces their part of the set. */
  lemma SpliceHas(xs: seq<Interval>, mid: seq<Interval>, f: nat, e: nat, n: int)
    requires f <= e <= |xs|
    ensures Has(xs[..f] + mid + xs[e..], n) <==>
              Has(mid, n) || (exists i :: 0 <= i < f && xs[i].Has(n)) || (exists i :: e <= i < |xs| && xs[i].Has(n))
  {
    var r := xs[..f] + mid + xs[e..];
    assert forall i :: 0 <= i < f ==> r[i] == xs[i];
    assert forall i :: 0 <= i < |mid| ==> r[f + i] == mid[i];
    forall i | e <= i < |xs| ensures r[f + |mid| + (i - e)] == xs[i] { }
    if Has(r, n) {
      var k :| 0 <= k < |r| && r[k].Has(n);
      if f <= k < f + |mid| { assert mid[k - f].Has(n); }
      if f + |mid| <= k { assert xs[e + (k - f - |mid|)].Has(n); }
    }
    if i :| 0 <= i < |mid| && mid[i].Has(n) { assert r[f + i].Has(n); }
    if i :| 0 <= i < f && xs[i].Has(n) { assert r[i].Has(n); }
    if i :| e <= i < |xs| && xs[i].Has(n) { assert r[f + |mid| + (i - e)].Has(n); }
  }

  /** A canonical middle that keeps its distance on both sides makes a canonical list. */
  lemma SpliceCanonical(xs: seq<Interval>, mid: seq<Interval>, f: nat, e: nat)
    requires Canonical(xs) && Canonical(mid) && f <= e <= |xs|
    requires forall i, j :: 0 <= i < f && 0 <= j < |mid| ==> xs[i].end + 1 < mid[j].start
    requires forall i, j :: e <= i < |xs| && 0 <= j < |mid| ==> mid[j].end + 1 < xs[i].start
    ensures Canonical(xs[..f] + mid + xs[e..])
  {
    var r := xs[..f] + mid + xs[e..];
    var m := |mid|;
    assert forall i :: 0 <= i < |r| ==> r[i] == if i < f then xs[i] else if i < f + m then mid[i - f] else xs[i - f - m + e];
    forall i, j | 0 <= i < j < |r| ensures r[i].end + 1 < r[j].start {
      if i < f + m <= j && f <= i { assert mid[i - f].end + 1 < xs[j - f - m + e].start; }
    }
  }

  // ------------------------------------------------------------------ insert

  /** What `insert` makes of the list. */
  function Inserted(xs: seq<Interval>, iv: Interval, f: nat, e: nat): seq<Interval>
    requires f <= e <= |xs|
  {
    xs[..f] + [Merged(xs, iv, f, e)] + xs[e..]
  }

  lemma MergedApart(xs: seq<Interval>, iv: Interval, f: nat, e: nat)
    requires Canonical(xs) && iv.Fits() && Touching(xs, iv, f, e)
    ensures var m := Merged(xs, iv, f, e);
            && m.Fits()
            && (forall i :: 0 <= i < f ==> xs[i].end + 1 < m.start)
            && (forall i :: e <= i < |xs| ==> m.end + 1 < xs[i].start)
  {
    if f < e { assert f == e - 1 || xs[f].end + 1 < xs[e - 1].start; }
  }

  /** Insertion is set union, and keeps the list canonical. */
  lemma InsertIsUnion(xs: seq<Interval>, iv: Interval, f: nat, e: nat)
    requires Canonical(xs) && iv.Fits() && Touching(xs, iv, f, e)
    ensures Canonical(Inserted(xs, iv, f, e))
    ensures forall n: int :: Has(Inserted(xs, iv, f, e), n) <==> Has(xs, n) || iv.Has(n)
  {
    var m := Merged(xs, iv, f, e);
    MergedApart(xs, iv, f, e);
    SpliceCanonical(xs, [m], f, e);
    forall n: int ensures Has(Inserted(xs, iv, f, e), n) <==> Has(xs, n) || iv.Has(n) {
      hide Canonical, Touching, Merged;
      SpliceHas(xs, [m], f, e, n);
      MergedHas(xs, iv, f, e, n);
      assert Has([m], n) <==> m.Has(n) by {
        if m.Has(n) { assert [m][0].Has(n); }
      }
    }
  }

  /** Whether `insert` bumps the version. */
  predicate Bumps(xs: seq<Interval>, iv: Interval, f: nat, e: nat)
    requires f <= e <= |xs|
  {
    f == e || (var m := Merged(xs, iv, f, e); m.end - m.start > xs[f].end - xs[f].start)
  }

  lemma NotIn(xs: seq<Interval>, n: int, k: nat)
    requires Canonical(xs) && k <= |xs| && (k > 0 ==> xs[k - 1].end < n) && (k < |xs| ==> n < xs[k].start)
    ensures !Has(xs, n)
  {
    forall i | 0 <= i < |xs| ensures !xs[i].Has(n) {
      if i < k { assert i == k - 1 || xs[i].end + 1 < xs[k - 1].start; }
      if i > k { assert xs[k].end + 1 < xs[i].start; }
    }
  }

  /** The version changes exactly when the set does. */
  lemma VersionFollowsSet(xs: seq<Interval>, iv: Interval, f: nat, e: nat)
    requires Canonical(xs) && iv.Fits() && Touching(xs, iv, f, e)
    ensures Bumps(xs, iv, f, e) <==> exists n :: iv.Has(n) && !Has(xs, n)
  {
    hide Has;
    if f < e && f < e - 1 { assert xs[f].end + 1 < xs[e - 1].start; }
    if Bumps(xs, iv, f, e) {
      var n := if f == e then iv.start else if iv.start < xs[f].start then xs[f].start - 1 else xs[f].end + 1;
      if f < e - 1 { assert xs[f].end + 1 < xs[f + 1].start && (e - 1 == f + 1 || xs[f + 1].end + 1 < xs[e - 1].start); }
      assert iv.Has(n);
      NotIn(xs, n, if f == e || iv.start < xs[f].start then f else f + 1);
    } else {
      forall n | iv.Has(n) ensures Has(xs, n) { HasAt(xs, f, n); }
    }
  }

  lemma HasAt(xs: seq<Interval>, i: nat, n: int)
    requires i < |xs| && xs[i].Has(n)
    ensures Has(xs, n)
  {
  }

  // ------------------------------------------------------------------ withdraw

  /** What is left of the touching intervals once `iv` is taken out. */
  function Left(xs: seq<Interval>, iv: Interval, f: nat, e: nat): seq<Interval>
    requires f < e <= |xs|
  {
    (if xs[f].start + 1 <= iv.start then [Interval(xs[f].start, iv.start - 1)] else []) +
    (if xs[e - 1].end >= iv.end + 1 then [Interval(iv.end + 1, xs[e - 1].end)] else [])
  }

  function Withdrawn(xs: seq<Interval>, iv: Interval, f: nat, e: nat): seq<Interval>
    requires f <= e <= |xs|
  {
    if f == e then xs else xs[..f] + Left(xs, iv, f, e) + xs[e..]
  }

  lemma LeftHas(xs: seq<Interval>, iv: Interval, f: nat, e: nat, n: int)
    requires Canonical(xs) && iv.Fits() && Touching(xs, iv, f, e) && f < e
    ensures Has(Left(xs, iv, f, e), n) <==> !iv.Has(n) && exists i :: f <= i < e && xs[i].Has(n)
  {
    var l := Left(xs, iv, f, e);
    if Has(l, n) {
      if n < iv.start { assert xs[f].Has(n); } else { assert xs[e - 1].Has(n); }
    }
    if i :| f <= i < e && xs[i].Has(n) {
      assert (i == f || xs[f].end + 1 < xs[i].start) && (i == e - 1 || xs[i].end + 1 < xs[e - 1].start);
      if n < iv.start { assert l[0].Has(n); }
      if n > iv.end { assert l[|l| - 1].Has(n); }
    }
  }

  lemma LeftApart(xs: seq<Interval>, iv: Interval, f: nat, e: nat)
    requires Canonical(xs) && iv.Fits() && Touching(xs, iv, f, e) && f < e
    ensures Canonical(Left(xs, iv, f, e))
    ensures forall i, j :: 0 <= i < f && 0 <= j < |Left(xs, iv, f, e)| ==> xs[i].end + 1 < Left(xs, iv, f, e)[j].start
    ensures forall i, j :: e <= i < |xs| && 0 <= j < |Left(xs, iv, f, e)| ==> Left(xs, iv, f, e)[j].end + 1 < xs[i].start
  {
    var l := Left(xs, iv, f, e);
    forall j | 0 <= j < |l|
      ensures (xs[f].start <= l[j].start && l[j].end <= xs[e - 1].end) || l[j].end < iv.start
    {
    }
  }

  /** Withdrawing is set difference, and keeps the list canonical. */
  lemma WithdrawIsDifference(xs: seq<Interval>, iv: Interval, f: nat, e: nat)
    requires Canonical(xs) && iv.Fits() && Touching(xs, iv, f, e)
    ensures Canonical(Withdrawn(xs, iv, f, e))
    ensures forall n: int :: Has(Withdrawn(xs, iv, f, e), n) <==> Has(xs, n) && !iv.Has(n)
  {
    if f < e {
      LeftApart(xs, iv, f, e);
      SpliceCanonical(xs, Left(xs, iv, f, e), f, e);
    }
    forall n: int ensures Has(Withdrawn(xs, iv, f, e), n) <==> Has(xs, n) && !iv.Has(n) {
      hide Canonical, Left;
      if f < e {
        SpliceHas(xs, Left(xs, iv, f, e), f, e, n);
        LeftHas(xs, iv, f, e, n);
      }
    }
  }

  lemma Untouched(xs: seq<Interval>, iv: Interval, f: nat)
    requires f <= |xs|
    ensures Withdrawn(xs, iv, f, f) == xs
  {
  }

  /** Taking the middle out of one interval, as the code does it. */
  lemma SplitForm(xs: seq<Interval>, iv: Interval, f: nat)
    requires f < |xs| && xs[f].start + 1 <= iv.start && xs[f].end >= iv.end + 1
    ensures var ys := xs[f := Interval(iv.end + 1, xs[f].end)];
            ys[..f] + [Interval(xs[f].start, iv.start - 1)] + ys[f..] == Withdrawn(xs, iv, f, f + 1)
  {
  }

  /** Cutting the outer intervals and erasing between them, as the code does it. */
  lemma EraseForm(xs: seq<Interval>, iv: Interval, f: nat, e: nat)
    requires f < e <= |xs|
    requires !(e - 1 == f && xs[f].start + 1 <= iv.start && xs[f].end >= iv.end + 1)
    ensures var (first, last) := (xs[f], xs[e - 1]);
            var ys := if first.start + 1 <= iv.start then xs[f := Interval(first.start, iv.start - 1)] else xs;
            var zs := if last.end >= iv.end + 1 then ys[e - 1 := Interval(iv.end + 1, last.end)] else ys;
            zs[..if first.start + 1 <= iv.start then f + 1 else f] + zs[if last.end >= iv.end + 1 then e - 1 else e..] ==
            Withdrawn(xs, iv, f, e)
  {
  }

  // ------------------------------------------------------------------ the class

  class IntervalSet {
    var intervals: seq<Interval>
    var insertVersion: nat

    constructor ()
      ensures intervals == [] && insertVersion == 0
    {
      intervals, insertVersion := [], 0;
    }

    /** Binary search for the first interval that is not wholly before `iv`. */
    method LowerBound(iv: Interval) returns (f: nat)
      requires Canonical(intervals)
      ensures f <= |intervals|
      ensures forall i :: 0 <= i < f ==> intervals[i].end + 1 < iv.start
      ensures forall i :: f <= i < |intervals| ==> intervals[i].end + 1 >= iv.start
    {
      var hi: nat := |intervals|;
      f := 0;
      while f < hi
        invariant f <= hi <= |intervals|
        invariant forall i :: 0 <= i < f ==> intervals[i].end + 1 < iv.start
        invariant forall i :: hi <= i < |intervals| ==> intervals[i].end + 1 >= iv.start
      {
        var mid := (f + hi) / 2;
        assert forall i :: 0 <= i < mid ==> intervals[i].end + 1 < intervals[mid].start;
        assert forall i :: mid < i < |intervals| ==> intervals[mid].end + 1 < intervals[i].start;
        if intervals[mid].end + 1 < iv.start {
          f := mid + 1;
        } else {
          hi := mid;
        }
      }
    }

    /** `intersectingRange`: from the first interval not before `iv`, those that start by its end. */
    method IntersectingRange(iv: Interval) returns (f: nat, e: nat)
      requires Canonical(intervals) && iv.Fits()
      ensures Touching(intervals, iv, f, e)
    {
      f := LowerBound(iv);
      e := f;
      while e < |intervals| && intervals[e].start <= iv.end + 1
        invariant f <= e <= |intervals|
        invariant forall i :: f <= i < e ==> intervals[i].start <= iv.end + 1
      {
        e := e + 1;
      }
      assert forall i :: e < i < |intervals| ==> intervals[e].end + 1 < intervals[i].start;
    }

    method Insert(iv: Interval)
      requires Canonical(intervals) && iv.Fits()
      modifies this
      ensures Canonical(intervals)
      ensures forall n: int :: Has(intervals, n) <==> old(Has(intervals, n)) || iv.Has(n)
      ensures insertVersion == old(insertVersion) + if exists n :: iv.Has(n) && !old(Has(intervals, n)) then 1 else 0
    {
      hide Has, Canonical;
      var f, e := IntersectingRange(iv);
      InsertIsUnion(intervals, iv, f, e);
      VersionFollowsSet(intervals, iv, f, e);
      if f == e {
        insertVersion := insertVersion + 1;
        intervals := intervals[..f] + [iv] + intervals[f..];
        return;
      }
      var first, last := intervals[f], intervals[e - 1];
      var grown := Interval(if iv.start < first.start then iv.start else first.start,
                            if iv.end > last.end then iv.end else last.end);
      if grown.end - grown.start > first.end - first.start {
        insertVersion := insertVersion + 1;
      }
      intervals := intervals[..f] + [grown] + intervals[e..];
    }

    method TryInsert(start: nat, end: nat) returns (error: IntervalSetError)
      requires Canonical(intervals)
      modifies this
      ensures Canonical(intervals)
      ensures error == InvalidInterval <==> start > end
      ensures error == IntervalBoundTooLarge <==> start <= end && end > MAX - 1
      ensures error != NoError ==> intervals == old(intervals) && insertVersion == old(insertVersion)
      ensures error == NoError ==> forall n: int :: Has(intervals, n) <==> old(Has(intervals, n)) || start <= n <= end
    {
      if start > end {
        return InvalidInterval;
      }
      if end > MAX - 1 {
        return IntervalBoundTooLarge;
      }
      Insert(Interval(start, end));
      return NoError;
    }

    method Withdraw(iv: Interval)
      requires Canonical(intervals) && iv.Fits()
      modifies this`intervals
      ensures Canonical(intervals)
      ensures forall n: int :: Has(intervals, n) <==> old(Has(intervals, n)) && !iv.Has(n)
    {
      hide Has, Canonical, Touching, Left, Withdrawn;
      var f, e := IntersectingRange(iv);
      WithdrawIsDifference(intervals, iv, f, e);
      assert f <= e <= |intervals| by { RangeIn(intervals, iv, f, e); }
      if f == e {
        Untouched(intervals, iv, f);
        return;
      }
      var first, last := intervals[f], intervals[e - 1];
      if e - 1 == f && first.start + 1 <= iv.start && last.end >= iv.end + 1 {
        var toSplit := Interval(first.start, iv.start - 1);
        intervals := intervals[f := Interval(iv.end + 1, last.end)];
        intervals := intervals[..f] + [toSplit] + intervals[f..];
        SplitForm(old(intervals), iv, f);
        return;
      }
      var erasureStart, erasureEnd := f, e;
      if first.start + 1 <= iv.start {
        erasureStart := f + 1;
        intervals := intervals[f := Interval(first.start, iv.start - 1)];
      }
      if last.end >= iv.end + 1 {
        erasureEnd := e - 1;
        intervals := intervals[e - 1 := Interval(iv.end + 1, last.end)];
      }
      intervals := intervals[..erasureStart] + intervals[erasureEnd..];
      EraseForm(old(intervals), iv, f, e);
    }

    /** Whether all of `start..end` is in the set. */
    method Contains(start: nat, end: nat) returns (r: bool)
      requires Canonical(intervals)
      ensures start <= end ==> (r <==> forall n :: start <= n <= end ==> Has(intervals, n))
    {
      for i := 0 to |intervals|
        invariant start <= end ==> forall j :: 0 <= j < i ==> intervals[j].end <= start && !(intervals[j].Has(start) && intervals[j].Has(end))
      {
        if start >= intervals[i].start && end <= intervals[i].end {
          if start <= end { AllIn(intervals, i, start, end); }
          return true;
        }
        if start < intervals[i].end {
          if start <= end { NotAllIn(intervals, i, start, end); }
          return false;
        }
      }
      if start <= end { NotAllIn(intervals, |intervals|, start, end); }
      return false;
    }
  }

  lemma RangeIn(xs: seq<Interval>, iv: Interval, f: nat, e: nat)
    requires Touching(xs, iv, f, e)
    ensures f <= e <= |xs|
  {
  }

  lemma AllIn(xs: seq<Interval>, i: nat, start: nat, end: nat)
    requires i < |xs| && xs[i].start <= start <= end <= xs[i].end
    ensures forall n :: start <= n <= end ==> Has(xs, n)
  {
    forall n | start <= n <= end ensures Has(xs, n) { HasAt(xs, i, n); }
  }

  /** The search stopped at `i` without finding one interval that holds both ends. */
  lemma NotAllIn(xs: seq<Interval>, i: nat, start: nat, end: nat)
    requires Canonical(xs) && start <= end && i <= |xs|
    requires forall j :: 0 <= j < i ==> xs[j].end <= start && !(xs[j].Has(start) && xs[j].Has(end))
    requires i < |xs| ==> start < xs[i].end && !(xs[i].Has(start) && xs[i].Has(end))
    ensures exists n :: start <= n <= end && !Has(xs, n)
  {
    if i > 0 && xs[i - 1].end == start {
      assert xs[i - 1].Has(start);
      NotIn(xs, start + 1, i);
    } else if i < |xs| && xs[i].start <= start {
      NotIn(xs, xs[i].end + 1, i + 1);
    } else {
      NotIn(xs, start, i);
    }
  }
}
