/** The interval and event queries of utils/grid.py. */
module Timeline {
  datatype DataRange = DataRange(start: int, end: int, value: int)

  datatype Event = Event(at: int, value: int)

  /** Python's `xs[lo:hi]` for indices that are not negative. */
  function Slice<T>(xs: seq<T>, lo: nat, hi: nat): seq<T> {
    var top := if hi < |xs| then hi else |xs|;
    if lo < top then xs[lo..top] else []
  }

  /** The elements at the indices from `lo` up to `hi`, as far as there are any, in their order. */
  lemma SliceAt<T>(xs: seq<T>, lo: nat, hi: nat)
    ensures |Slice(xs, lo, hi)| == if hi <= lo || |xs| <= lo then 0 else if hi < |xs| then hi - lo else |xs| - lo
    ensures forall i | 0 <= i < |Slice(xs, lo, hi)| :: Slice(xs, lo, hi)[i] == xs[lo + i]
  {}

  /** `part` is a contiguous part of `xs`: in the same order, and nothing in between left out. */
  ghost predicate Contiguous<T>(xs: seq<T>, part: seq<T>) {
    exists lo: nat :: PartAt(xs, part, lo)
  }

  ghost predicate PartAt<T>(xs: seq<T>, part: seq<T>, lo: nat) {
    lo + |part| <= |xs| && part == xs[lo..lo + |part|]
  }

  lemma SliceIsPart<T>(xs: seq<T>, lo: nat, hi: nat)
    ensures Contiguous(xs, Slice(xs, lo, hi))
  {
    var s := Slice(xs, lo, hi);
    assert PartAt(xs, s, if s == [] then 0 else lo);
  }

  // ----- Ranges -----

  predicate Covers(r: DataRange, key: int) {
    r.start <= key <= r.end
  }

  predicate Meets(r: DataRange, start: int, end: int) {
    r.start <= end && start <= r.end
  }

  /** Sorted by start, and no two ranges have a point in common. */
  ghost predicate InOrder(ranges: seq<DataRange>) {
    && (forall i | 0 <= i < |ranges| :: ranges[i].start <= ranges[i].end)
    && (forall i, j | 0 <= i < j < |ranges| :: ranges[i].end < ranges[j].start)
  }

  /** The binary search between `l` and `u`. */
  function RangeSearch(ranges: seq<DataRange>, key: int, l: int, u: int): int
    requires 0 <= l <= u + 1 <= |ranges|
    decreases u - l + 1
  {
    if l > u then -1
    else
      var i := (l + u) / 2;
      if Covers(ranges[i], key) then i
      else if key < ranges[i].start then RangeSearch(ranges, key, l, i - 1)
      else RangeSearch(ranges, key, i + 1, u)
  }

  /** A range that is found covers the key, and on ranges in order no covering range is missed. */
  lemma {:induction false} RangeSearchFinds(ranges: seq<DataRange>, key: int, l: int, u: int)
    requires 0 <= l <= u + 1 <= |ranges|
    ensures var r := RangeSearch(ranges, key, l, u);
      && (r == -1 || (l <= r <= u && Covers(ranges[r], key)))
      && (InOrder(ranges) && r == -1 ==> forall k | l <= k <= u :: !Covers(ranges[k], key))
    decreases u - l + 1
  {
    if l > u {
    } else {
      var i := (l + u) / 2;
      if Covers(ranges[i], key) {
      } else if key < ranges[i].start {
        RangeSearchFinds(ranges, key, l, i - 1);
      } else {
        RangeSearchFinds(ranges, key, i + 1, u);
      }
    }
  }

  function Find(ranges: seq<DataRange>, key: int): int {
    RangeSearch(ranges, key, 0, |ranges| - 1)
  }

  /** On ranges in order, the search gives the one index whose range covers the key, or -1. */
  lemma FindIsTheCover(ranges: seq<DataRange>, key: int, k: int)
    requires InOrder(ranges) && 0 <= k < |ranges|
    ensures Find(ranges, key) == k <==> ranges[k].start <= key && key <= ranges[k].end
    ensures Find(ranges, key) == -1 ==> key < ranges[k].start || ranges[k].end < key
  {
    RangeSearchFinds(ranges, key, 0, |ranges| - 1);
  }

  /** The half-open index interval for the queries below. */
  function Bounds(ranges: seq<DataRange>, start: int, end: int): (b: (nat, nat))
    ensures b.1 <= |ranges|
  {
    var s, e := Find(ranges, start), Find(ranges, end);
    RangeSearchFinds(ranges, start, 0, |ranges| - 1);
    RangeSearchFinds(ranges, end, 0, |ranges| - 1);
    if s == -1 && e == -1 then (0, 0)
    else if s == -1 then (0, e + 1)
    else if e == -1 then (s, |ranges|)
    else (s, e + 1)
  }

  /** Some range covers the key. */
  ghost predicate Covered(ranges: seq<DataRange>, key: int) {
    exists k :: 0 <= k < |ranges| && Covers(ranges[k], key)
  }

  lemma CoveredIffFound(ranges: seq<DataRange>, key: int)
    requires InOrder(ranges)
    ensures Covered(ranges, key) <==> Find(ranges, key) != -1
  {
    RangeSearchFinds(ranges, key, 0, |ranges| - 1);
  }

  /** What the bounds mean on ranges in order. */
  lemma BoundsMean(ranges: seq<DataRange>, start: int, end: int)
    ensures InOrder(ranges) && start <= end && Covered(ranges, start) && Covered(ranges, end) ==>
              ExactSlice(ranges, start, end)
    ensures InOrder(ranges) && start <= end && (Covered(ranges, start) || Covered(ranges, end)) ==>
              forall k | 0 <= k < |ranges| && Meets(ranges[k], start, end) ::
                Bounds(ranges, start, end).0 <= k < Bounds(ranges, start, end).1
    ensures InOrder(ranges) && !Covered(ranges, start) && !Covered(ranges, end) ==> Bounds(ranges, start, end) == (0, 0)
  {
    if InOrder(ranges) {
      CoveredIffFound(ranges, start);
      CoveredIffFound(ranges, end);
      if start <= end && Covered(ranges, start) && Covered(ranges, end) {
        BothCovered(ranges, start, end);
      }
      if start <= end && (Covered(ranges, start) || Covered(ranges, end)) {
        forall k | 0 <= k < |ranges| && Meets(ranges[k], start, end)
          ensures Bounds(ranges, start, end).0 <= k < Bounds(ranges, start, end).1
        {
          NothingMissed(ranges, start, end, k);
        }
      }
    }
  }

  /** An element of a slice is an element at one of its indices. */
  lemma SliceMember<T>(xs: seq<T>, lo: nat, hi: nat, x: T)
    ensures x in Slice(xs, lo, hi) <==> exists k :: lo <= k < hi && k < |xs| && xs[k] == x
  {
    var s := Slice(xs, lo, hi);
    if x in s {
      var i :| 0 <= i < |s| && s[i] == x;
      assert xs[lo + i] == x;
    }
    if k :| lo <= k < hi && k < |xs| && xs[k] == x {
      assert s[k - lo] == x;
    }
  }

  /** What the slice between them holds. */
  lemma SliceMeans(ranges: seq<DataRange>, start: int, end: int)
    ensures var r := Slice(ranges, Bounds(ranges, start, end).0, Bounds(ranges, start, end).1);
      && (InOrder(ranges) && start <= end && Covered(ranges, start) && Covered(ranges, end) ==>
            forall x :: x in r <==> x in ranges && Meets(x, start, end))
      && (InOrder(ranges) && start <= end && (Covered(ranges, start) || Covered(ranges, end)) ==>
            forall x | x in ranges && Meets(x, start, end) :: x in r)
  {
    BoundsMean(ranges, start, end);
    forall x: DataRange
      ensures x in Slice(ranges, Bounds(ranges, start, end).0, Bounds(ranges, start, end).1) <==>
              exists k :: Bounds(ranges, start, end).0 <= k < Bounds(ranges, start, end).1 && k < |ranges| && ranges[k] == x
    {
      SliceMember(ranges, Bounds(ranges, start, end).0, Bounds(ranges, start, end).1, x);
    }
  }

  class TimelineDataRange {
    var ranges: seq<DataRange>

    constructor ()
      ensures ranges == []
    {
      ranges := [];
    }

    method AddRange(range: DataRange)
      modifies this
      ensures ranges == old(ranges) + [range]
    {
      ranges := ranges + [range];
    }

    method Search(key: int) returns (r: int)
      ensures r == Find(ranges, key)
    {
      var l, u := 0, |ranges| - 1;
      while l <= u
        invariant 0 <= l <= u + 1 <= |ranges|
        invariant Find(ranges, key) == RangeSearch(ranges, key, l, u)
        decreases u - l + 1
      {
        var i := (l + u) / 2;
        if key >= ranges[i].start && key <= ranges[i].end {
          return i;
        } else if key < ranges[i].start {
          u := i - 1;
        } else {
          l := i + 1;
        }
      }
      return -1;
    }

    /** On ranges in order: exactly the ranges that meet [start, end] if both endpoints are covered, at least those if one
        is, and none if none is. */
    method GetRangesBounds(start: int, end: int) returns (lo: nat, hi: nat)
      ensures (lo, hi) == Bounds(ranges, start, end) && hi <= |ranges|
      ensures InOrder(ranges) && start <= end && Covered(ranges, start) && Covered(ranges, end) ==>
                forall k | 0 <= k < |ranges| :: lo <= k < hi <==> Meets(ranges[k], start, end)
      ensures InOrder(ranges) && start <= end && (Covered(ranges, start) || Covered(ranges, end)) ==>
                forall k | 0 <= k < |ranges| && Meets(ranges[k], start, end) :: lo <= k < hi
      ensures InOrder(ranges) && !Covered(ranges, start) && !Covered(ranges, end) ==> lo == hi
    {
      BoundsMean(ranges, start, end);
      var s := Search(start);
      var e := Search(end);
      RangeSearchFinds(ranges, start, 0, |ranges| - 1);
      RangeSearchFinds(ranges, end, 0, |ranges| - 1);
      if s == -1 && e == -1 {
        return 0, 0;
      } else if s == -1 {
        return 0, e + 1;
      } else if e == -1 {
        return s, |ranges|;
      } else {
        return s, e + 1;
      }
    }

    /** The same ranges as those between the bounds, for every list of ranges. */
    method GetRanges(start: int, end: int) returns (r: seq<DataRange>)
      ensures Contiguous(ranges, r)
      ensures InOrder(ranges) && start <= end && Covered(ranges, start) && Covered(ranges, end) ==>
                forall x :: x in r <==> x in ranges && Meets(x, start, end)
      ensures InOrder(ranges) && start <= end && (Covered(ranges, start) || Covered(ranges, end)) ==>
                forall x | x in ranges && Meets(x, start, end) :: x in r
      ensures r == Slice(ranges, Bounds(ranges, start, end).0, Bounds(ranges, start, end).1)
    {
      SliceMeans(ranges, start, end);
      SliceIsPart(ranges, Bounds(ranges, start, end).0, Bounds(ranges, start, end).1);
      var s := Search(start);
      var e := Search(end);
      RangeSearchFinds(ranges, start, 0, |ranges| - 1);
      RangeSearchFinds(ranges, end, 0, |ranges| - 1);
      if s == -1 && e == -1 {
        return [];
      } else if s == -1 {
        return Slice(ranges, 0, e + 1);
      } else if e == -1 {
        return Slice(ranges, s, |ranges|);
      } else {
        return Slice(ranges, s, e + 1);
      }
    }
  }

  /** The slice holds exactly the ranges that meet [start, end]. */
  ghost predicate ExactSlice(ranges: seq<DataRange>, start: int, end: int) {
    forall k | 0 <= k < |ranges| ::
      Bounds(ranges, start, end).0 <= k < Bounds(ranges, start, end).1 <==> Meets(ranges[k], start, end)
  }

  /** `start` and `end` lie between the same two neighbouring ranges (or both before the first or after the last). */
  ghost predicate SameGap(ranges: seq<DataRange>, start: int, end: int) {
    exists g :: 0 <= g <= |ranges| && InGap(ranges, g, start, end)
  }

  ghost predicate InGap(ranges: seq<DataRange>, g: int, start: int, end: int)
    requires 0 <= g <= |ranges|
  {
    (g == 0 || ranges[g - 1].end < start) && (g == |ranges| || end < ranges[g].start)
  }

  /** A query with a covered endpoint misses no range that meets [start, end]. */
  lemma NothingMissed(ranges: seq<DataRange>, start: int, end: int, k: int)
    requires InOrder(ranges) && start <= end && 0 <= k < |ranges| && Meets(ranges[k], start, end)
    requires Find(ranges, start) != -1 || Find(ranges, end) != -1
    ensures Bounds(ranges, start, end).0 <= k < Bounds(ranges, start, end).1
  {
    RangeSearchFinds(ranges, start, 0, |ranges| - 1);
    RangeSearchFinds(ranges, end, 0, |ranges| - 1);
  }

  /** What the search says about range `k`. */
  lemma Found(ranges: seq<DataRange>, key: int, k: int)
    requires InOrder(ranges) && 0 <= k < |ranges|
    ensures var r := Find(ranges, key);
      && -1 <= r < |ranges| && (r == k <==> Covers(ranges[k], key))
      && (r != -1 ==> (k < r ==> ranges[k].end < key) && (r < k ==> key < ranges[k].start))
  {
    RangeSearchFinds(ranges, key, 0, |ranges| - 1);
  }

  lemma BothCovered(ranges: seq<DataRange>, start: int, end: int)
    requires InOrder(ranges) && start <= end && Find(ranges, start) != -1 && Find(ranges, end) != -1
    ensures ExactSlice(ranges, start, end)
  {
    forall k | 0 <= k < |ranges|
      ensures Bounds(ranges, start, end).0 <= k < Bounds(ranges, start, end).1 <==> Meets(ranges[k], start, end)
    {
      Found(ranges, start, k);
      Found(ranges, end, k);
    }
  }

  lemma OnlyEndCovered(ranges: seq<DataRange>, start: int, end: int)
    requires InOrder(ranges) && start <= end && Find(ranges, start) == -1 && Find(ranges, end) != -1
    ensures ranges != [] && (ExactSlice(ranges, start, end) <==> start < ranges[0].start)
  {
    RangeSearchFinds(ranges, end, 0, |ranges| - 1);
    Found(ranges, start, 0);
    Found(ranges, end, 0);
    if start < ranges[0].start {
      forall k | 0 <= k < |ranges|
        ensures Bounds(ranges, start, end).0 <= k < Bounds(ranges, start, end).1 <==> Meets(ranges[k], start, end)
      {
        Found(ranges, end, k);
        assert ranges[0].start <= ranges[k].end;
      }
    } else {
      assert !Meets(ranges[0], start, end);
    }
  }

  lemma OnlyStartCovered(ranges: seq<DataRange>, start: int, end: int)
    requires InOrder(ranges) && start <= end && Find(ranges, start) != -1 && Find(ranges, end) == -1
    ensures ranges != [] && (ExactSlice(ranges, start, end) <==> ranges[|ranges| - 1].end < end)
  {
    RangeSearchFinds(ranges, start, 0, |ranges| - 1);
    var n := |ranges| - 1;
    Found(ranges, start, n);
    Found(ranges, end, n);
    if ranges[n].end < end {
      forall k | 0 <= k < |ranges|
        ensures Bounds(ranges, start, end).0 <= k < Bounds(ranges, start, end).1 <==> Meets(ranges[k], start, end)
      {
        Found(ranges, start, k);
        assert ranges[k].start <= ranges[n].end;
      }
    } else {
      assert !Meets(ranges[n], start, end);
    }
  }

  lemma NeitherCovered(ranges: seq<DataRange>, start: int, end: int)
    requires InOrder(ranges) && start <= end && Find(ranges, start) == -1 && Find(ranges, end) == -1
    ensures ExactSlice(ranges, start, end) <==> SameGap(ranges, start, end)
  {
    if g :| 0 <= g <= |ranges| && InGap(ranges, g, start, end) {
      forall k | 0 <= k < |ranges| ensures !Meets(ranges[k], start, end) {
        if k < g - 1 { assert ranges[k].end < ranges[g - 1].start; }
        if k > g { assert ranges[g].end < ranges[k].start; }
      }
    }
    if ExactSlice(ranges, start, end) {
      var g := FirstNotBefore(ranges, start);
      if g < |ranges| { assert !Meets(ranges[g], start, end); }
      assert InGap(ranges, g, start, end);
    }
  }

  /** Exactly when a query is the intersection query: with both endpoints covered always; with one
      covered if no range lies beyond the other; with none if both lie in the same gap. */
  lemma ExactIff(ranges: seq<DataRange>, start: int, end: int)
    requires InOrder(ranges) && start <= end
    ensures var s, e := Find(ranges, start), Find(ranges, end);
      && (s != -1 && e != -1 ==> ExactSlice(ranges, start, end))
      && (s == -1 && e != -1 ==> ranges != [] && (ExactSlice(ranges, start, end) <==> start < ranges[0].start))
      && (s != -1 && e == -1 ==> ranges != [] && (ExactSlice(ranges, start, end) <==> ranges[|ranges| - 1].end < end))
      && (s == -1 && e == -1 ==> (ExactSlice(ranges, start, end) <==> SameGap(ranges, start, end)))
  {
    var s, e := Find(ranges, start), Find(ranges, end);
    if s != -1 && e != -1 {
      BothCovered(ranges, start, end);
    } else if e != -1 {
      OnlyEndCovered(ranges, start, end);
    } else if s != -1 {
      OnlyStartCovered(ranges, start, end);
    } else {
      NeitherCovered(ranges, start, end);
    }
  }

  /** Two queries that are no intersection queries: a range strictly inside an interval with uncovered endpoints is
      missed, and a range that ends before the interval is returned when only the end is covered. */
  lemma QueriesThatAreNoIntersections(inside: seq<DataRange>, before: seq<DataRange>)
    requires inside == [DataRange(2, 3, 0)] && before == [DataRange(0, 1, 0), DataRange(4, 6, 0)]
    ensures InOrder(inside) && !ExactSlice(inside, 1, 4)
    ensures Bounds(inside, 1, 4) == (0, 0) && Meets(inside[0], 1, 4)
    ensures InOrder(before) && !ExactSlice(before, 2, 5)
    ensures Bounds(before, 2, 5) == (0, 2) && !Meets(before[0], 2, 5)
  {
    FindIsTheCover(inside, 1, 0);
    FindIsTheCover(inside, 4, 0);
    RangeSearchFinds(inside, 1, 0, 0);
    RangeSearchFinds(inside, 4, 0, 0);
    FindIsTheCover(before, 2, 0);
    FindIsTheCover(before, 2, 1);
    FindIsTheCover(before, 5, 1);
    RangeSearchFinds(before, 2, 0, 1);
  }

  /** The number of ranges that end before `start`. */
  lemma FirstNotBefore(ranges: seq<DataRange>, start: int) returns (g: nat)
    requires InOrder(ranges)
    ensures g <= |ranges| && (g == 0 || ranges[g - 1].end < start) && (g == |ranges| || start <= ranges[g].end)
  {
    g := 0;
    while g < |ranges| && ranges[g].end < start
      invariant g <= |ranges| && (g == 0 || ranges[g - 1].end < start)
    {
      g := g + 1;
    }
  }

  // ----- Events -----

  ghost predicate Increasing(events: seq<Event>) {
    forall i, j | 0 <= i < j < |events| :: events[i].at < events[j].at
  }

  function EventSearch(events: seq<Event>, key: int, l: int, u: int): (r: nat)
    requires 0 <= l <= u + 1 <= |events|
    ensures l <= r <= u + 1
    decreases u - l + 1
  {
    if l > u then l
    else
      var i := (l + u) / 2;
      if key == events[i].at then i
      else if key < events[i].at then EventSearch(events, key, l, i - 1)
      else EventSearch(events, key, i + 1, u)
  }

  function Position(events: seq<Event>, key: int): nat {
    EventSearch(events, key, 0, |events| - 1)
  }

  lemma Middle(l: int, u: int)
    requires l <= u
    ensures l <= (l + u) / 2 <= u
  {}

  /** The search ends at an event of that time, or where the times pass the key. */
  ghost predicate Ends(events: seq<Event>, key: int, r: nat) {
    || (r < |events| && events[r].at == key)
    || (r <= |events| && (r == 0 || events[r - 1].at < key) && (r == |events| || key < events[r].at))
  }

  lemma {:induction false} EventSearchEnds(events: seq<Event>, key: int, l: int, u: int)
    requires 0 <= l <= u + 1 <= |events|
    requires l == 0 || events[l - 1].at < key
    requires u == |events| - 1 || key < events[u + 1].at
    ensures Ends(events, key, EventSearch(events, key, l, u))
    decreases u - l + 1
  {
    if l > u {
    } else {
      var i := (l + u) / 2;
      Middle(l, u);
      if key == events[i].at {
      } else if key < events[i].at {
        EventSearchEnds(events, key, l, i - 1);
      } else {
        EventSearchEnds(events, key, i + 1, u);
      }
    }
  }

  class TimelineEvent {
    var events: seq<Event>

    constructor ()
      ensures events == []
    {
      events := [];
    }

    method AddEvent(event: Event)
      modifies this
      ensures events == old(events) + [event]
    {
      events := events + [event];
    }

    method Search(key: int) returns (r: nat)
      ensures r == Position(events, key)
    {
      var l, u := 0, |events| - 1;
      while l <= u
        invariant 0 <= l <= u + 1 <= |events|
        invariant Position(events, key) == EventSearch(events, key, l, u)
        decreases u - l + 1
      {
        var i := (l + u) / 2;
        if key == events[i].at {
          return i;
        } else if key < events[i].at {
          u := i - 1;
        } else {
          l := i + 1;
        }
      }
      return l;
    }

    /** On increasing times: the events in [start, end], and the first one after `end` if `end` is no event time. */
    method GetEvents(start: int, end: int) returns (r: seq<Event>)
      ensures Contiguous(events, r)
      ensures Increasing(events) && start <= end ==> IsEventQuery(events, start, end, r)
      ensures r == Slice(events, Position(events, start), Position(events, end) + 1)
    {
      var s := Search(start);
      var e := Search(end);
      r := Slice(events, s, e + 1);
      EventSliceFacts(events, start, end);
    }

    method GetEventsBounds(start: int, end: int) returns (lo: nat, hi: nat)
      ensures Increasing(events) && start <= end ==>
                forall k | 0 <= k < |events| ::
                  lo <= k < hi <==> start <= events[k].at <= end || FirstAfter(events, end, events[k])
      ensures lo == Position(events, start) && hi == Position(events, end) + 1
    {
      var s := Search(start);
      var e := Search(end);
      if Increasing(events) && start <= end { EventBoundsMean(events, start, end); }
      return s, e + 1;
    }
  }

  /** `x` comes after `end`, and every earlier event comes before `end`. */
  ghost predicate FirstAfter(events: seq<Event>, end: int, x: Event) {
    end < x.at && forall j | 0 <= j < |events| && events[j].at < x.at :: events[j].at < end
  }

  lemma EventBoundsMean(events: seq<Event>, start: int, end: int)
    requires Increasing(events) && start <= end
    ensures forall k | 0 <= k < |events| ::
      (Position(events, start) <= k < Position(events, end) + 1)
      <==> (start <= events[k].at <= end || FirstAfter(events, end, events[k]))
  {
    forall k | 0 <= k < |events|
      ensures (Position(events, start) <= k < Position(events, end) + 1)
              <==> (start <= events[k].at <= end || FirstAfter(events, end, events[k]))
    {
      EventsExact(events, start, end, k);
      assert forall j | 0 <= j < |events| :: j < k <==> events[j].at < events[k].at;
    }
  }

  ghost predicate IsEventQuery(events: seq<Event>, start: int, end: int, r: seq<Event>) {
    forall x :: x in r <==> x in events && (start <= x.at <= end || FirstAfter(events, end, x))
  }

  lemma EventSliceMeans(events: seq<Event>, start: int, end: int)
    requires Increasing(events) && start <= end
    ensures IsEventQuery(events, start, end, Slice(events, Position(events, start), Position(events, end) + 1))
  {
    EventBoundsMean(events, start, end);
    forall x: Event
      ensures (x in Slice(events, Position(events, start), Position(events, end) + 1))
              <==> (x in events && (start <= x.at <= end || FirstAfter(events, end, x)))
    {
      SliceMember(events, Position(events, start), Position(events, end) + 1, x);
    }
  }

  lemma EventSliceFacts(events: seq<Event>, start: int, end: int)
    ensures var r := Slice(events, Position(events, start), Position(events, end) + 1);
      Contiguous(events, r) && (Increasing(events) && start <= end ==> IsEventQuery(events, start, end, r))
  {
    SliceIsPart(events, Position(events, start), Position(events, end) + 1);
    if Increasing(events) && start <= end {
      EventSliceMeans(events, start, end);
    }
  }

  /** On increasing times the search gives the first event that is not before the key. */
  lemma Splits(events: seq<Event>, key: int, k: int)
    requires Increasing(events) && 0 <= k < |events|
    ensures k < Position(events, key) <==> events[k].at < key
  {
    var r := Position(events, key);
    EventSearchEnds(events, key, 0, |events| - 1);
    if k < r { assert r < |events| ==> events[k].at < events[r].at; }
    if k < r - 1 { assert events[k].at < events[r - 1].at; }
    if r < k { assert events[r].at < events[k].at; }
  }

  /** Event `k` is in the slice exactly when it lies in [start, end] or is the first one after `end`
      and `end` itself is no event time. */
  lemma EventsExact(events: seq<Event>, start: int, end: int, k: int)
    requires Increasing(events) && start <= end && 0 <= k < |events|
    ensures Position(events, start) <= k < Position(events, end) + 1 <==>
            || start <= events[k].at <= end
            || (end < events[k].at && forall j | 0 <= j < k :: events[j].at < end)
  {
    var p := Position(events, end);
    Splits(events, start, k);
    Splits(events, end, k);
    if k <= p {
      forall j | 0 <= j < k ensures events[j].at < end { Splits(events, end, j); }
    } else {
      Splits(events, end, p);
    }
  }

  /** The slice holds nothing after `end` exactly when `end` is an event time or no event comes after it. */
  lemma NoneAfterIff(events: seq<Event>, start: int, end: int)
    requires Increasing(events) && start <= end
    ensures (forall k | 0 <= k < |events| && Position(events, start) <= k <= Position(events, end) :: events[k].at <= end)
        <==> (exists k :: 0 <= k < |events| && events[k].at == end) || forall k | 0 <= k < |events| :: events[k].at < end
  {
    var p := Position(events, end);
    forall k | 0 <= k < |events| ensures k < p <==> events[k].at < end { Splits(events, end, k); }
    if p < |events| {
      Splits(events, start, p);
    }
  }
}
