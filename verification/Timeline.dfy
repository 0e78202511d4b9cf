/** The timeline index of utils/grid.py (79-250): binary searches over ranges and events,
    and the slices taken with them. */
module Timeline {

  // ---------------------------------------------------------------- filters and slices

  /** The linear filter that the searches stand for. */
  ghost function Select<T>(xs: seq<T>, p: T -> bool): seq<T> {
    if xs == [] then [] else
    Select(xs[..|xs| - 1], p) + if p(xs[|xs| - 1]) then [xs[|xs| - 1]] else []
  }

  /** A filter that picks a contiguous stretch is a slice. */
  lemma {:induction false} SelectSlice<T>(xs: seq<T>, p: T -> bool, lo: nat, hi: nat)
    requires lo <= hi <= |xs|
    requires forall i | 0 <= i < |xs| :: p(xs[i]) <==> lo <= i < hi
    ensures Select(xs, p) == xs[lo..hi]
  {
    if xs != [] {
      var front, last := xs[..|xs| - 1], |xs| - 1;
      assert p(xs[last]) <==> lo <= last < hi;
      if hi == |xs| && lo < hi {
        SelectSlice(front, p, lo, hi - 1);
        assert xs[lo..hi] == front[lo..hi - 1] + [xs[last]];
      } else if hi == |xs| {
        SelectSlice(front, p, 0, 0);
      } else {
        SelectSlice(front, p, lo, hi);
        assert xs[lo..hi] == front[lo..hi];
      }
    }
  }

  /** A Python slice `xs[lo:hi]` with non-negative bounds. */
  function Slice<T>(xs: seq<T>, lo: nat, hi: nat): seq<T> {
    var h := if hi < |xs| then hi else |xs|;
    if lo < h then xs[lo..h] else []
  }

  /** Where a binary search looks next. */
  function Middle(l: nat, u: int): (i: int)
    requires l <= u
    ensures l <= i <= u
  {
    (l + u) / 2
  }

  // ---------------------------------------------------------------- ranges

  datatype DataRange = DataRange(start: int, end: int, value: string)

  predicate Contains(r: DataRange, key: int) {
    r.start <= key <= r.end
  }

  /** Ranges whose starts and ends are in order; they may touch and overlap. */
  ghost predicate Ordered(rs: seq<DataRange>) {
    forall i, j | 0 <= i < j < |rs| :: rs[i].start <= rs[j].start && rs[i].end <= rs[j].end
  }

  /** Ranges in order that touch at most. */
  ghost predicate Adjacent(rs: seq<DataRange>) {
    && (forall i | 0 <= i < |rs| :: rs[i].start <= rs[i].end)
    && forall i, j | 0 <= i < j < |rs| :: rs[i].end <= rs[j].start
  }

  /** Ranges in order, none of which touches another. */
  ghost predicate Disjoint(rs: seq<DataRange>) {
    && (forall i | 0 <= i < |rs| :: rs[i].start <= rs[i].end)
    && forall i, j | 0 <= i < j < |rs| :: rs[i].end < rs[j].start
  }

  ghost predicate Covered(rs: seq<DataRange>, key: int) {
    exists i :: 0 <= i < |rs| && Contains(rs[i], key)
  }

  ghost function Overlapping(rs: seq<DataRange>, start: int, end: int): seq<DataRange> {
    Select(rs, (r: DataRange) => r.start <= end && start <= r.end)
  }

  ghost function EndingBefore(rs: seq<DataRange>, key: int): seq<DataRange> {
    Select(rs, (r: DataRange) => r.end < key)
  }

  ghost function StartingAfter(rs: seq<DataRange>, key: int): seq<DataRange> {
    Select(rs, (r: DataRange) => key < r.start)
  }

  /** What `get_ranges` returns, said without the search. */
  ghost function Selected(rs: seq<DataRange>, start: int, end: int): seq<DataRange> {
    if Covered(rs, start) then
      Overlapping(rs, start, end) + if Covered(rs, end) then [] else StartingAfter(rs, end)
    else if Covered(rs, end) then EndingBefore(rs, start) + Overlapping(rs, start, end)
    else []
  }

  /** The position that separates the ranges before `key` from the others. */
  lemma {:induction false} SplitAt(rs: seq<DataRange>, key: int) returns (n: nat)
    requires Disjoint(rs)
    ensures n <= |rs| && forall i | 0 <= i < |rs| :: rs[i].end < key <==> i < n
  {
    if rs == [] || rs[|rs| - 1].end < key {
      n := |rs|;
    } else {
      n := SplitAt(rs[..|rs| - 1], key);
    }
  }

  /** The slice between two found positions is the filter. */
  lemma BothInside(rs: seq<DataRange>, start: int, end: int, s: nat, e: nat)
    requires Disjoint(rs) && start <= end && s < |rs| && e < |rs|
    requires Contains(rs[s], start) && Contains(rs[e], end)
    ensures s <= e && Slice(rs, s, e + 1) == Overlapping(rs, start, end)
  {
    SelectSlice(rs, (r: DataRange) => r.start <= end && start <= r.end, s, e + 1);
  }

  lemma OnlyEndInside(rs: seq<DataRange>, start: int, end: int, e: nat)
    requires Disjoint(rs) && start <= end && e < |rs| && !Covered(rs, start) && Contains(rs[e], end)
    ensures Slice(rs, 0, e + 1) == EndingBefore(rs, start) + Overlapping(rs, start, end)
  {
    var n := SplitAt(rs, start);
    assert n <= e;
    SelectSlice(rs, (r: DataRange) => r.end < start, 0, n);
    SelectSlice(rs, (r: DataRange) => r.start <= end && start <= r.end, n, e + 1);
    assert rs[0..n] + rs[n..e + 1] == rs[0..e + 1];
  }

  lemma OnlyStartInside(rs: seq<DataRange>, start: int, end: int, s: nat)
    requires Disjoint(rs) && start <= end && s < |rs| && Contains(rs[s], start) && !Covered(rs, end)
    ensures Slice(rs, s, |rs|) == Overlapping(rs, start, end) + StartingAfter(rs, end)
  {
    var n := SplitAt(rs, end);
    assert !Contains(rs[s], end);
    forall i | 0 <= i < |rs|
      ensures end < rs[i].start <==> i >= n
    {
      assert !Contains(rs[i], end);
    }
    SelectSlice(rs, (r: DataRange) => end < r.start, n, |rs|);
    SelectSlice(rs, (r: DataRange) => r.start <= end && start <= r.end, s, n);
    assert rs[s..n] + rs[n..] == rs[s..];
  }

  /** `get_ranges` is exactly the linear filter if and only if no range lies on the far side
      of an endpoint that falls into a gap and, when both do, none starts between them. */
  lemma SelectedIsFilterIff(rs: seq<DataRange>, start: int, end: int)
    requires Disjoint(rs) && start <= end
    ensures Selected(rs, start, end) == Overlapping(rs, start, end) <==>
            if Covered(rs, start) then Covered(rs, end) || rs[|rs| - 1].start <= end
            else if Covered(rs, end) then start <= rs[0].end
            else forall i | 0 <= i < |rs| :: !(start < rs[i].start <= end)
  {
    var f := Overlapping(rs, start, end);
    assert |f + StartingAfter(rs, end)| == |f| + |StartingAfter(rs, end)|;
    assert |EndingBefore(rs, start) + f| == |EndingBefore(rs, start)| + |f|;
    SelectEmptyIff(rs, (r: DataRange) => end < r.start);
    SelectEmptyIff(rs, (r: DataRange) => r.end < start);
    SelectEmptyIff(rs, (r: DataRange) => r.start <= end && start <= r.end);
    if !Covered(rs, start) {
      assert forall i | 0 <= i < |rs| :: !Contains(rs[i], start);
    }
  }

  lemma {:induction false} SelectEmptyIff<T>(xs: seq<T>, p: T -> bool)
    ensures Select(xs, p) == [] <==> forall i | 0 <= i < |xs| :: !p(xs[i])
  {
    if xs != [] {
      SelectEmptyIff(xs[..|xs| - 1], p);
    }
  }

  /** With both endpoints in gaps the ranges between them are missed. */
  lemma RangesBetweenGapsAreMissed()
    ensures var rs := [DataRange(2, 3, "")];
            Disjoint(rs) && Selected(rs, 1, 4) == [] && Overlapping(rs, 1, 4) == rs
  {
    var rs := [DataRange(2, 3, "")];
    SelectSlice(rs, (r: DataRange) => r.start <= 4 && 1 <= r.end, 0, 1);
  }

  /** The binary search on the indices from `l` to `u`. */
  function Find(rs: seq<DataRange>, key: int, l: nat, u: int): (r: int)
    requires l <= u + 1 <= |rs|
    ensures r == -1 || (l <= r <= u && Contains(rs[r], key))
    decreases u - l + 1
  {
    if l > u then -1 else
    var i := Middle(l, u);
    if Contains(rs[i], key) then i
    else if key < rs[i].start then Find(rs, key, l, i - 1)
    else Find(rs, key, i + 1, u)
  }

  /** In ranges that are in order nothing that contains the key is overlooked. */
  lemma {:induction false} FindMisses(rs: seq<DataRange>, key: int, l: nat, u: int)
    requires Ordered(rs) && l <= u + 1 <= |rs| && Find(rs, key, l, u) == -1
    ensures forall i | l <= i <= u :: !Contains(rs[i], key)
    decreases u - l + 1
  {
    hide Middle;
    if l <= u {
      var i := Middle(l, u);
      if key < rs[i].start {
        FindMisses(rs, key, l, i - 1);
      } else {
        FindMisses(rs, key, i + 1, u);
      }
    }
  }

  /** In any list at all, a later key is not found before an earlier one. */
  lemma {:induction false} FindMonotone(rs: seq<DataRange>, start: int, end: int, l: nat, u: int)
    requires start <= end && l <= u + 1 <= |rs|
    requires Find(rs, start, l, u) >= 0 && Find(rs, end, l, u) >= 0
    ensures Find(rs, start, l, u) <= Find(rs, end, l, u)
    decreases u - l + 1
  {
    var i := Middle(l, u);
    if start < rs[i].start && end < rs[i].start {
      FindMonotone(rs, start, end, l, i - 1);
    } else if rs[i].start <= start && rs[i].end < start {
      FindMonotone(rs, start, end, i + 1, u);
    }
  }

  /** The slice from `lo` to `hi` begins with a range that contains the start and finishes
      with one that contains the end; where an endpoint is in no range, the list's own
      beginning or end takes its place, and nothing is left when both are in none. */
  ghost predicate Delimits(rs: seq<DataRange>, start: int, end: int, lo: nat, hi: nat) {
    && lo <= hi <= |rs|
    && (if Covered(rs, start) then lo < hi && Contains(rs[lo], start) else lo == 0)
    && if Covered(rs, end) then lo < hi && Contains(rs[hi - 1], end)
       else hi == if Covered(rs, start) then |rs| else 0
  }

  /** What such a slice holds of ranges that touch or overlap: on the side of an endpoint
      in a range nothing that lies beyond it, and nothing is left out but ranges that
      contain that endpoint too, which in ranges that touch at most reach the interval in
      no more than the endpoint. */
  lemma DelimitedRanges(rs: seq<DataRange>, start: int, end: int, lo: nat, hi: nat)
    requires Ordered(rs) && start <= end && Delimits(rs, start, end, lo, hi)
    requires Covered(rs, start) || Covered(rs, end)
    ensures forall i | lo <= i < hi ::
              (Covered(rs, start) ==> start <= rs[i].end) && (Covered(rs, end) ==> rs[i].start <= end)
    ensures forall i | 0 <= i < lo :: rs[i].end < start || Contains(rs[i], start)
    ensures forall i | hi <= i < |rs| :: end < rs[i].start || Contains(rs[i], end)
    ensures Adjacent(rs) ==> forall i | 0 <= i < |rs| && rs[i].start < end && start < rs[i].end :: lo <= i < hi
  {
  }

  /** Of ranges that do not touch it is what is selected. */
  lemma DelimitedIsSelected(rs: seq<DataRange>, start: int, end: int, lo: nat, hi: nat)
    requires Disjoint(rs) && start <= end && Delimits(rs, start, end, lo, hi)
    ensures Slice(rs, lo, hi) == Selected(rs, start, end)
  {
    if Covered(rs, start) && Covered(rs, end) {
      BothInside(rs, start, end, lo, hi - 1);
    } else if Covered(rs, end) {
      OnlyEndInside(rs, start, end, hi - 1);
    } else if Covered(rs, start) {
      OnlyStartInside(rs, start, end, lo);
    }
  }

  /** Such ranges are in order. */
  lemma DisjointOrdered(rs: seq<DataRange>)
    ensures Disjoint(rs) ==> Ordered(rs)
  {
  }

  lemma FoundCovers(rs: seq<DataRange>, key: int)
    requires Ordered(rs)
    ensures Find(rs, key, 0, |rs| - 1) == -1 <==> !Covered(rs, key)
  {
    hide Ordered;
    if Find(rs, key, 0, |rs| - 1) == -1 {
      FindMisses(rs, key, 0, |rs| - 1);
    }
  }

  lemma FoundNone(rs: seq<DataRange>, key: int)
    ensures Ordered(rs) && Find(rs, key, 0, |rs| - 1) == -1 ==>
              forall i | 0 <= i < |rs| :: key < rs[i].start || rs[i].end < key
  {
    if Ordered(rs) {
      FoundCovers(rs, key);
      if Find(rs, key, 0, |rs| - 1) == -1 {
        assert forall i | 0 <= i < |rs| :: !Contains(rs[i], key);
      }
    }
  }

  /** The bounds that go with the results of the two searches. */
  function Bounds(rs: seq<DataRange>, s: int, e: int): (nat, nat)
    requires -1 <= s && -1 <= e
  {
    (if s == -1 then 0 else s, if e >= 0 then e + 1 else if s >= 0 then |rs| else 0)
  }

  /** What the two searches find delimits the slice. */
  lemma FoundDelimits(rs: seq<DataRange>, start: int, end: int)
    requires Ordered(rs) && start <= end
    ensures var b := Bounds(rs, Find(rs, start, 0, |rs| - 1), Find(rs, end, 0, |rs| - 1));
            && Delimits(rs, start, end, b.0, b.1)
            && (Disjoint(rs) ==> Slice(rs, b.0, b.1) == Selected(rs, start, end))
  {
    hide Find, Ordered, Covered, Selected, Disjoint;
    FoundCovers(rs, start);
    FoundCovers(rs, end);
    var s, e := Find(rs, start, 0, |rs| - 1), Find(rs, end, 0, |rs| - 1);
    if s >= 0 && e >= 0 {
      FindMonotone(rs, start, end, 0, |rs| - 1);
    }
    if Disjoint(rs) {
      DelimitedIsSelected(rs, start, end, Bounds(rs, s, e).0, Bounds(rs, s, e).1);
    }
  }

  class TimelineDataRange {
    var ranges: seq<DataRange>

    constructor (ranges: seq<DataRange>)
      ensures this.ranges == ranges
    {
      this.ranges := ranges;
    }

    method Search(key: int) returns (r: int)
      ensures -1 <= r < |ranges|
      ensures r >= 0 ==> ranges[r].start <= key <= ranges[r].end
      ensures Ordered(ranges) && r == -1 ==>
                forall i | 0 <= i < |ranges| :: key < ranges[i].start || ranges[i].end < key
      ensures r == Find(ranges, key, 0, |ranges| - 1)
    {
      hide Middle, Ordered;
      FoundNone(ranges, key);
      var l, u := 0, |ranges| - 1;
      while l <= u
        invariant 0 <= l <= u + 1 <= |ranges|
        invariant Find(ranges, key, l, u) == Find(ranges, key, 0, |ranges| - 1)
      {
        var i := Middle(l, u);
        if key >= ranges[i].start && key <= ranges[i].end {
          return i;
        } else if key < ranges[i].start {
          u := i - 1;
        } else {
          l := i + 1;
        }
      }
      return -1;
    }

    /** The delimited slice; of ranges that do not touch, what is selected. */
    method GetRanges(start: int, end: int) returns (r: seq<DataRange>)
      ensures Ordered(ranges) && start <= end ==>
                exists lo: nat, hi: nat :: Delimits(ranges, start, end, lo, hi) && r == Slice(ranges, lo, hi)
      ensures Disjoint(ranges) && start <= end ==> r == Selected(ranges, start, end)
    {
      hide Find, Ordered, Covered, Selected, Disjoint, Delimits;
      var s := Search(start);
      var e := Search(end);
      DisjointOrdered(ranges);
      if Ordered(ranges) && start <= end {
        FoundDelimits(ranges, start, end);
      }
      if s == -1 && e == -1 {
        r := [];
      } else if s == -1 {
        r := Slice(ranges, 0, e + 1);
      } else if e == -1 {
        r := Slice(ranges, s, |ranges|);
      } else {
        r := Slice(ranges, s, e + 1);
      }
      assert r == Slice(ranges, Bounds(ranges, s, e).0, Bounds(ranges, s, e).1);
    }

    /** The bounds delimit what `GetRanges` returns. */
    method GetRangesBounds(start: int, end: int) returns (lo: nat, hi: nat)
      ensures hi <= |ranges|
      ensures Ordered(ranges) && start <= end ==> Delimits(ranges, start, end, lo, hi)
      ensures Disjoint(ranges) && start <= end ==> Slice(ranges, lo, hi) == Selected(ranges, start, end)
    {
      hide Find, Ordered, Covered, Selected, Disjoint, Delimits;
      var s := Search(start);
      var e := Search(end);
      DisjointOrdered(ranges);
      if Ordered(ranges) && start <= end {
        FoundDelimits(ranges, start, end);
      }
      if s == -1 && e == -1 {
        return 0, 0;
      } else if s == -1 {
        return 0, e + 1;
      } else if e == -1 {
        return s, |ranges|;
      } else {
        return s, e + 1;
      }
    }
  }

  // ---------------------------------------------------------------- events

  datatype Event = Event(at: int, value: string)

  ghost predicate NonDecreasing(es: seq<Event>) {
    forall i, j | 0 <= i < j < |es| :: es[i].at <= es[j].at
  }

  /** No two events share a time. */
  ghost predicate Increasing(es: seq<Event>) {
    forall i, j | 0 <= i < j < |es| :: es[i].at < es[j].at
  }

  ghost function Within(es: seq<Event>, start: int, end: int): seq<Event> {
    Select(es, (e: Event) => start <= e.at <= end)
  }

  ghost function After(es: seq<Event>, key: int): seq<Event> {
    Select(es, (e: Event) => key < e.at)
  }

  /** `i` is the first index at or after `key`. */
  ghost predicate IsFirstAtOrAfter(es: seq<Event>, key: int, i: int) {
    && 0 <= i <= |es|
    && (forall j | 0 <= j < i :: es[j].at < key)
    && forall j | i <= j < |es| :: key <= es[j].at
  }

  /** The events in the interval and, if no event falls on its end, the first one after it. */
  ghost function EventsFor(es: seq<Event>, start: int, end: int): seq<Event> {
    Within(es, start, end) +
    if (exists i :: 0 <= i < |es| && es[i].at == end) || After(es, end) == [] then [] else After(es, end)[..1]
  }

  lemma WithinSlice(es: seq<Event>, start: int, end: int, s: nat, e: nat)
    requires Increasing(es) && start <= end
    requires IsFirstAtOrAfter(es, start, s) && IsFirstAtOrAfter(es, end, e)
    ensures s <= e
    ensures var n := if e < |es| && es[e].at == end then e + 1 else e;
            Within(es, start, end) == es[s..n] && After(es, end) == es[n..]
  {
    var n := if e < |es| && es[e].at == end then e + 1 else e;
    SelectSlice(es, (x: Event) => start <= x.at <= end, s, n);
    SelectSlice(es, (x: Event) => end < x.at, n, |es|);
  }

  lemma EventSlice(es: seq<Event>, start: int, end: int, s: nat, e: nat)
    requires Increasing(es) && start <= end
    requires IsFirstAtOrAfter(es, start, s) && IsFirstAtOrAfter(es, end, e)
    ensures Slice(es, s, e + 1) == EventsFor(es, start, end)
  {
    WithinSlice(es, start, end, s, e);
    if e < |es| && es[e].at == end {
      assert After(es, end) == es[e + 1..];
    } else {
      assert !exists i :: 0 <= i < |es| && es[i].at == end;
      if e < |es| {
        assert es[s..e + 1] == es[s..e] + es[e..][..1];
      }
    }
  }

  ghost function At(es: seq<Event>, key: int): seq<Event> {
    Select(es, (e: Event) => e.at == key)
  }

  ghost function Between(es: seq<Event>, start: int, end: int): seq<Event> {
    Select(es, (e: Event) => start < e.at < end)
  }

  /** The binary search on the indices from `l` to `u`. */
  function Landing(es: seq<Event>, key: int, l: nat, u: int): (r: nat)
    requires l <= u + 1 <= |es|
    ensures l <= r <= u + 1
    decreases u - l + 1
  {
    if l > u then l else
    var i := Middle(l, u);
    if key == es[i].at then i
    else if key < es[i].at then Landing(es, key, l, i - 1)
    else Landing(es, key, i + 1, u)
  }

  /** `r` is at an event of time `key`, or between the earlier and the later ones if there
      is none. */
  ghost predicate Lands(es: seq<Event>, key: int, r: nat) {
    && r <= |es|
    && (forall i | 0 <= i < r :: es[i].at <= key)
    && (forall i | r <= i < |es| :: key <= es[i].at)
    && ((r < |es| && es[r].at == key) || forall i | 0 <= i < |es| :: es[i].at != key)
  }

  /** Any event of the given time will do. */
  lemma LandsAt(es: seq<Event>, r: nat)
    requires NonDecreasing(es) && r < |es|
    ensures Lands(es, es[r].at, r)
  {
  }

  /** All events before the index `l` are earlier and all from the index `u` on are later. */
  ghost predicate Beside(es: seq<Event>, key: int, l: nat, u: nat) {
    l <= u <= |es| && (forall i | 0 <= i < l :: es[i].at < key) && forall i | u <= i < |es| :: key < es[i].at
  }

  lemma BesideLands(es: seq<Event>, key: int, l: nat)
    requires Beside(es, key, l, l)
    ensures Lands(es, key, l)
  {
  }

  lemma BesideCloser(es: seq<Event>, key: int, l: nat, u: nat, i: nat)
    requires NonDecreasing(es) && Beside(es, key, l, u) && l <= i < u
    ensures key < es[i].at ==> Beside(es, key, l, i)
    ensures es[i].at < key ==> Beside(es, key, i + 1, u)
  {
  }

  lemma {:induction false} LandingLands(es: seq<Event>, key: int, l: nat, u: int)
    requires NonDecreasing(es) && l <= u + 1 <= |es| && Beside(es, key, l, u + 1)
    ensures Lands(es, key, Landing(es, key, l, u))
    decreases u - l + 1
  {
    hide NonDecreasing, Beside, Lands, Middle;
    if l > u {
      BesideLands(es, key, l);
    } else {
      var i := Middle(l, u);
      BesideCloser(es, key, l, u + 1, i);
      if key < es[i].at {
        LandingLands(es, key, l, i - 1);
      } else if es[i].at < key {
        LandingLands(es, key, i + 1, u);
      } else {
        LandsAt(es, i);
      }
    }
  }

  /** In any list at all, a later key does not land before an earlier one. */
  lemma {:induction false} LandingMonotone(es: seq<Event>, start: int, end: int, l: nat, u: int)
    requires start <= end && l <= u + 1 <= |es|
    ensures Landing(es, start, l, u) <= Landing(es, end, l, u)
    decreases u - l + 1
  {
    if l <= u {
      var i := Middle(l, u);
      if end < es[i].at {
        LandingMonotone(es, start, end, l, i - 1);
      } else if es[i].at < start {
        LandingMonotone(es, start, end, i + 1, u);
      }
    }
  }

  /** From `first` only the last events from `a` on are taken, at least one if there are any. */
  predicate KeepsLast(first: seq<Event>, a: nat) {
    a < |first| || (first == [] && a == 0)
  }

  /** What is returned when events may share a time: the last ones of those at the start,
      at least one if there are any, all in between, and the first ones of those at the
      end, at least one if there are any, or else the first one after it. For a single
      point it is one event. */
  ghost predicate ChosenWith(es: seq<Event>, start: int, end: int, r: seq<Event>, a: nat, b: nat) {
    var first, last, next := At(es, start), At(es, end), After(es, end);
    if last == [] then
      KeepsLast(first, a) && r == first[a..] + Between(es, start, end) + if next == [] then [] else next[..1]
    else if start == end then a < |last| && r == [last[a]]
    else KeepsLast(first, a) && 0 < b <= |last| && r == first[a..] + Between(es, start, end) + last[..b]
  }

  ghost predicate Chosen(es: seq<Event>, start: int, end: int, r: seq<Event>) {
    exists a: nat, b: nat :: ChosenWith(es, start, end, r, a, b)
  }

  /** The position that separates the events before `key` from the others. */
  lemma {:induction false} SplitEvents(es: seq<Event>, key: int) returns (n: nat)
    requires NonDecreasing(es)
    ensures n <= |es| && forall i | 0 <= i < |es| :: es[i].at < key <==> i < n
  {
    if es == [] || es[|es| - 1].at < key {
      n := |es|;
    } else {
      n := SplitEvents(es[..|es| - 1], key);
    }
  }

  /** The stretch of the events at `key`, around the position where a search lands. */
  lemma Stretch(es: seq<Event>, key: int, r: nat) returns (lo: nat, hi: nat)
    requires NonDecreasing(es) && Lands(es, key, r)
    ensures lo <= r <= hi <= |es| && (lo < hi ==> r < hi)
    ensures forall i | 0 <= i < |es| :: (es[i].at < key <==> i < lo) && (es[i].at <= key <==> i < hi)
    ensures At(es, key) == es[lo..hi] && After(es, key) == es[hi..]
  {
    lo := SplitEvents(es, key);
    hi := SplitEvents(es, key + 1);
    assert r < |es| ==> key <= es[r].at;
    assert r > 0 ==> es[r - 1].at <= key;
    assert lo < hi ==> es[lo].at == key;
    SelectSlice(es, (e: Event) => e.at == key, lo, hi);
    SelectSlice(es, (e: Event) => key < e.at, hi, |es|);
  }

  lemma BetweenSlice(es: seq<Event>, start: int, end: int, lo: nat, hi: nat)
    requires start <= end && lo <= hi <= |es|
    requires forall i | 0 <= i < |es| :: (es[i].at <= start <==> i < lo) && (start < es[i].at < end ==> i < hi)
    requires forall i | lo <= i < hi :: es[i].at < end
    ensures Between(es, start, end) == es[lo..hi]
  {
    SelectSlice(es, (x: Event) => start < x.at < end, lo, hi);
  }

  lemma ChosenAtPoint(es: seq<Event>, key: int, r: nat)
    requires NonDecreasing(es) && Lands(es, key, r)
    ensures Chosen(es, key, key, Slice(es, r, r + 1))
  {
    var lo, hi := Stretch(es, key, r);
    BetweenSlice(es, key, key, hi, hi);
    PointParts(es, key, r, lo, hi);
  }

  /** At a single point there is one event, of that time or the first one after it. */
  lemma PointParts(es: seq<Event>, key: int, r: nat, lo: nat, hi: nat)
    requires lo <= r <= hi <= |es| && (lo < hi ==> r < hi)
    requires At(es, key) == es[lo..hi] && Between(es, key, key) == [] && After(es, key) == es[hi..]
    ensures Chosen(es, key, key, Slice(es, r, r + 1))
  {
    hide Between, At, After;
    var point := Slice(es, r, r + 1);
    if lo == hi {
      var next := if es[hi..] == [] then [] else es[hi..][..1];
      assert point == next;
      assert es[lo..hi][0..] + [] + next == next;
      assert ChosenWith(es, key, key, point, 0, 1);
    } else {
      assert point == [es[lo..hi][r - lo]];
      assert ChosenWith(es, key, key, point, r - lo, 1);
    }
  }

  /** A slice in three parts. */
  lemma CutAt<T>(xs: seq<T>, s: nat, q: nat, k: nat, e: nat)
    requires s <= q <= k <= e <= |xs|
    ensures Slice(xs, s, e + 1) == xs[s..q] + xs[q..k] + xs[k..if e < |xs| then e + 1 else e]
  {
  }

  lemma ChosenSlice(es: seq<Event>, start: int, end: int, s: nat, e: nat)
    requires NonDecreasing(es) && start < end && s <= e
    requires Lands(es, start, s) && Lands(es, end, e)
    ensures Chosen(es, start, end, Slice(es, s, e + 1))
  {
    var p, q := Stretch(es, start, s);
    var k, n := Stretch(es, end, e);
    assert q > 0 ==> es[q - 1].at < end;
    BetweenSlice(es, start, end, q, k);
    ThreeParts(es, start, end, s, e, p, q, k, n);
  }

  /** The slice between two positions, in its three parts. */
  lemma ThreeParts(es: seq<Event>, start: int, end: int, s: nat, e: nat, p: nat, q: nat, k: nat, n: nat)
    requires start < end && p <= s <= q <= k <= e <= n <= |es|
    requires (p < q ==> s < q) && (k < n ==> e < n)
    requires At(es, start) == es[p..q] && Between(es, start, end) == es[q..k]
    requires At(es, end) == es[k..n] && After(es, end) == es[n..]
    ensures Chosen(es, start, end, Slice(es, s, e + 1))
  {
    hide Between, At, After;
    CutAt(es, s, q, k, e);
    assert es[p..q][s - p..] == es[s..q];
    if k < n {
      assert es[k..n][..e + 1 - k] == es[k..e + 1];
    } else {
      assert n < |es| ==> es[n..][..1] == es[n..n + 1];
    }
    assert ChosenWith(es, start, end, Slice(es, s, e + 1), s - p, e + 1 - k);
  }

  lemma IncreasingOrdered(es: seq<Event>)
    ensures Increasing(es) ==> NonDecreasing(es)
  {
  }

  lemma LandsFirst(es: seq<Event>, key: int, r: nat)
    requires Increasing(es) && Lands(es, key, r)
    ensures IsFirstAtOrAfter(es, key, r)
  {
  }

  lemma LandingMeans(es: seq<Event>, key: int)
    ensures var r := Landing(es, key, 0, |es| - 1);
            && (NonDecreasing(es) ==> Lands(es, key, r))
            && (Increasing(es) ==> IsFirstAtOrAfter(es, key, r))
  {
    hide Landing, Lands, IsFirstAtOrAfter;
    IncreasingOrdered(es);
    if NonDecreasing(es) {
      LandingLands(es, key, 0, |es| - 1);
      if Increasing(es) {
        LandsFirst(es, key, Landing(es, key, 0, |es| - 1));
      }
    }
  }

  /** What the two searches find delimits the chosen events, which for increasing times
      are those of the filter. */
  lemma LandingsChoose(es: seq<Event>, start: int, end: int)
    requires NonDecreasing(es) && start <= end
    ensures var s, e := Landing(es, start, 0, |es| - 1), Landing(es, end, 0, |es| - 1);
            && Chosen(es, start, end, Slice(es, s, e + 1))
            && (Increasing(es) ==> Slice(es, s, e + 1) == EventsFor(es, start, end))
  {
    hide Lands, Landing, Chosen, EventsFor, Increasing, NonDecreasing, IsFirstAtOrAfter;
    var s, e := Landing(es, start, 0, |es| - 1), Landing(es, end, 0, |es| - 1);
    LandingMeans(es, start);
    LandingMeans(es, end);
    LandingMonotone(es, start, end, 0, |es| - 1);
    if start == end {
      ChosenAtPoint(es, start, s);
    } else {
      ChosenSlice(es, start, end, s, e);
    }
    if Increasing(es) {
      EventSlice(es, start, end, s, e);
    }
  }

  class TimelineEvent {
    var events: seq<Event>

    constructor (events: seq<Event>)
      ensures this.events == events
    {
      this.events := events;
    }

    method Search(key: int) returns (r: nat)
      ensures NonDecreasing(events) ==> Lands(events, key, r)
      ensures Increasing(events) ==> IsFirstAtOrAfter(events, key, r)
      ensures r == Landing(events, key, 0, |events| - 1)
    {
      hide Middle, NonDecreasing, Increasing, Lands, IsFirstAtOrAfter;
      LandingMeans(events, key);
      var l, u := 0, |events| - 1;
      while l <= u
        invariant 0 <= l <= u + 1 <= |events|
        invariant Landing(events, key, l, u) == Landing(events, key, 0, |events| - 1)
      {
        var i := Middle(l, u);
        if key == events[i].at {
          return i;
        } else if key < events[i].at {
          u := i - 1;
        } else {
          l := i + 1;
        }
      }
      return l;
    }

    method GetEvents(start: int, end: int) returns (r: seq<Event>)
      ensures NonDecreasing(events) && start <= end ==> Chosen(events, start, end, r)
      ensures Increasing(events) && start <= end ==> r == EventsFor(events, start, end)
    {
      hide Landing, NonDecreasing, Increasing, Lands, IsFirstAtOrAfter, Chosen, EventsFor;
      var s := Search(start);
      var e := Search(end);
      IncreasingOrdered(events);
      if NonDecreasing(events) && start <= end {
        LandingsChoose(events, start, end);
      }
      return Slice(events, s, e + 1);
    }

    /** As a slice the bounds are what `GetEvents` returns; the upper one may exceed the
        list by one. */
    method GetEventsBounds(start: int, end: int) returns (lo: nat, hi: nat)
      ensures hi <= |events| + 1
      ensures NonDecreasing(events) && start <= end ==> Chosen(events, start, end, Slice(events, lo, hi))
      ensures Increasing(events) && start <= end ==> Slice(events, lo, hi) == EventsFor(events, start, end)
    {
      hide Landing, NonDecreasing, Increasing, Lands, IsFirstAtOrAfter, Chosen, EventsFor;
      var s := Search(start);
      var e := Search(end);
      IncreasingOrdered(events);
      if NonDecreasing(events) && start <= end {
        LandingsChoose(events, start, end);
      }
      return s, e + 1;
    }
  }
}
