// The timeline searches of utils/grid.py (lines 105-122, 153-169, 201-218, 236-245).

module Timeline {

  datatype Range = Range(start: int, end: int)

  ghost predicate SortedDisjoint(rs: seq<Range>) {
    && (forall i :: 0 <= i < |rs| ==> rs[i].start <= rs[i].end)
    && forall i, j :: 0 <= i < j < |rs| ==> rs[i].end < rs[j].start
  }

  predicate Contains(r: Range, key: int) { r.start <= key <= r.end }

  ghost predicate InSome(rs: seq<Range>, key: int) {
    exists i :: 0 <= i < |rs| && Contains(rs[i], key)
  }

  // The range has a point in common with [start, end].
  predicate Meets(r: Range, start: int, end: int) { r.start <= end && start <= r.end }

  ghost predicate CoversMeeting(rs: seq<Range>, start: int, end: int, lo: int, hi: int) {
    forall k :: 0 <= k < |rs| && Meets(rs[k], start, end) ==> lo <= k < hi
  }

  class TimelineDataRange {
    var ranges: seq<Range>

    // For sorted and disjoint ranges the one that contains the key is found; what is found contains the key
    // in any case.
    method Search(key: int) returns (index: int)
      ensures -1 <= index < |ranges|
      ensures index >= 0 ==> ranges[index].start <= key <= ranges[index].end
      ensures SortedDisjoint(ranges) ==>
                && (index == -1 <==> !InSome(ranges, key))
                && forall k :: 0 <= k < |ranges| ==> (ranges[k].start <= key <= ranges[k].end <==> k == index)
    {
      var l, u := 0, |ranges| - 1;
      while l <= u
        invariant 0 <= l <= u + 1 <= |ranges|
        invariant SortedDisjoint(ranges) ==> forall k :: 0 <= k < |ranges| && Contains(ranges[k], key) ==> l <= k <= u
        decreases u - l
      {
        var i := (l + u) / 2;
        if key >= ranges[i].start && key <= ranges[i].end {
          return i;
        } else if key < ranges[i].start {
          u := i - 1;
        } else {
          l := i + 1;
        }
      }
      return -1;
    }

    // Covers every range that meets [start, end] exactly when an end point lies in a range or
    // there is nothing to cover: with both end points in gaps the answer is (0, 0). For end points the
    // wrong way round the two bounds are still those of their ranges.
    method GetRangesBounds(start: int, end: int) returns (lo: int, hi: int)
      ensures 0 <= lo <= |ranges| && 0 <= hi <= |ranges|
      ensures SortedDisjoint(ranges) && start <= end ==> lo <= hi
      ensures SortedDisjoint(ranges) && start <= end ==>
                (CoversMeeting(ranges, start, end, lo, hi) <==>
                  InSome(ranges, start) || InSome(ranges, end)
                  || forall k :: 0 <= k < |ranges| ==> !Meets(ranges[k], start, end))
      ensures SortedDisjoint(ranges) ==>
                && (if InSome(ranges, start) then lo < |ranges| && Contains(ranges[lo], start) else lo == 0)
                && (InSome(ranges, end) ==> 0 < hi && Contains(ranges[hi - 1], end))
                && (!InSome(ranges, end) ==> hi == if InSome(ranges, start) then |ranges| else 0)
      ensures SortedDisjoint(ranges) && start <= end && InSome(ranges, start) && InSome(ranges, end) ==>
                forall k :: lo <= k < hi ==> Meets(ranges[k], start, end)
    {
      var s := Search(start);
      var e := Search(end);
      if s == -1 && e == -1 {
        return 0, 0;
      } else if s == -1 {
        return 0, e + 1;
      } else if e == -1 {
        return s, |ranges|;
      } else {
        return s, e + 1;
      }
    }
  }

  // One range strictly between the end points: it meets the interval and is not covered.
  lemma BetweenGapsIsMissed()
    ensures var ranges := [Range(1, 2)];
            && SortedDisjoint(ranges)
            && !InSome(ranges, 0) && !InSome(ranges, 3)
            && Meets(ranges[0], 0, 3)
            && !CoversMeeting(ranges, 0, 3, 0, 0)
  {
    var ranges := [Range(1, 2)];
    assert Meets(ranges[0], 0, 3);
  }

  // Several events may be at the same time.
  ghost predicate Sorted(at: seq<int>) {
    forall i, j :: 0 <= i < j < |at| ==> at[i] <= at[j]
  }

  // At most one event is at the time t.
  ghost predicate Single(at: seq<int>, t: int) {
    forall i, j :: 0 <= i < j < |at| ==> !(at[i] == t && at[j] == t)
  }

  // Where the search between l and u ends.
  function Found(at: seq<int>, key: int, l: int, u: int): (r: int)
    requires 0 <= l <= u + 1 <= |at|
    ensures l <= r <= u + 1
    decreases u + 1 - l
  {
    if l > u then l
    else
      var i := (l + u) / 2;
      if key == at[i] then i else if key < at[i] then Found(at, key, l, i - 1) else Found(at, key, i + 1, u)
  }

  // An event at key if there is one, or the place where it would be.
  ghost predicate Places(at: seq<int>, key: int, index: int) {
    && 0 <= index <= |at|
    && (forall k :: 0 <= k < index ==> at[k] <= key)
    && (forall k :: index <= k < |at| ==> at[k] >= key)
    && (key in at ==> index < |at| && at[index] == key)
  }

  lemma {:induction false} FoundPlaces(at: seq<int>, key: int, l: int, u: int)
    requires Sorted(at) && 0 <= l <= u + 1 <= |at|
    requires forall k :: 0 <= k < l ==> at[k] < key
    requires forall k :: u < k < |at| ==> at[k] > key
    ensures Places(at, key, Found(at, key, l, u))
    decreases u + 1 - l
  {
    if l <= u {
      var i := (l + u) / 2;
      if key < at[i] { FoundPlaces(at, key, l, i - 1); } else if key > at[i] { FoundPlaces(at, key, i + 1, u); }
    }
  }

  // With a single event at key, the place is the number of events before it.
  lemma SinglePlace(at: seq<int>, key: int, index: int)
    requires Sorted(at) && Single(at, key) && Places(at, key, index)
    ensures forall k :: 0 <= k < |at| ==> (at[k] < key <==> k < index)
  {
  }

  function Place(at: seq<int>, key: int): (r: int)
    ensures 0 <= r <= |at|
  {
    Found(at, key, 0, |at| - 1)
  }

  lemma PlaceMeans(at: seq<int>, key: int)
    requires Sorted(at)
    ensures Places(at, key, Place(at, key))
    ensures Single(at, key) ==> forall k :: 0 <= k < |at| ==> (at[k] < key <==> k < Place(at, key))
  {
    FoundPlaces(at, key, 0, |at| - 1);
    if Single(at, key) { SinglePlace(at, key, Place(at, key)); }
  }

  // All events in [start, end] are within the bounds.
  ghost predicate CoversEvents(at: seq<int>, start: int, end: int, lo: int, hi: int) {
    forall k :: 0 <= k < |at| && start <= at[k] <= end ==> lo <= k < hi
  }

  // With single events at both ends every event in [start, end] is covered. In general events are missed
  // exactly if there is one at start before the lower bound, or one at end from the upper bound on.
  lemma CoveredIff(at: seq<int>, start: int, end: int)
    requires Sorted(at)
    ensures Single(at, start) && Single(at, end) ==> CoversEvents(at, start, end, Place(at, start), Place(at, end) + 1)
    ensures start <= end ==>
              (CoversEvents(at, start, end, Place(at, start), Place(at, end) + 1) <==>
                (Place(at, start) > 0 ==> at[Place(at, start) - 1] < start) &&
                (Place(at, end) + 1 < |at| ==> at[Place(at, end) + 1] > end))
  {
    PlaceMeans(at, start);
    PlaceMeans(at, end);
  }

  // Nothing else is covered but the first event after end, if there is none at end.
  lemma NothingElse(at: seq<int>, start: int, end: int)
    requires Sorted(at)
    ensures forall k :: Place(at, start) <= k < Place(at, end) + 1 && 0 <= k < |at| ==>
              start <= at[k] && (at[k] <= end || forall j :: 0 <= j < k ==> at[j] < end)
    ensures Place(at, end) == |at| <==> forall k :: 0 <= k < |at| ==> at[k] < end
  {
    var s, e := Place(at, start), Place(at, end);
    PlaceMeans(at, start);
    PlaceMeans(at, end);
    forall k | 0 <= k < |at| && at[k] == end ensures e < |at| && at[e] == end { assert at[k] in at; }
    if e < |at| { assert at[e] >= end; }
    forall k | s <= k < e + 1 && 0 <= k < |at|
      ensures start <= at[k] && (at[k] <= end || forall j :: 0 <= j < k ==> at[j] < end)
    {
    }
  }

  class TimelineEvent {
    var events: seq<int>  // the times at which the events are

    method Search(key: int) returns (index: nat)
      requires Sorted(events)
      ensures index == Place(events, key) && Places(events, key, index)
    {
      var l, u := 0, |events| - 1;
      while l <= u
        invariant 0 <= l <= u + 1 <= |events|
        invariant Found(events, key, l, u) == Place(events, key)
        decreases u - l
      {
        var i := (l + u) / 2;
        if key == events[i] {
          PlaceMeans(events, key);
          return i;
        } else if key < events[i] {
          u := i - 1;
        } else {
          l := i + 1;
        }
      }
      PlaceMeans(events, key);
      return l;
    }

    // What lies between the bounds is said by CoveredIff and NothingElse.
    method GetEventsBounds(start: int, end: int) returns (lo: nat, hi: nat)
      requires Sorted(events)
      ensures lo == Place(events, start) && Places(events, start, lo)
      ensures hi == Place(events, end) + 1 && Places(events, end, hi - 1)
    {
      var s := Search(start);
      var e := Search(end);
      return s, e + 1;
    }
  }

  // Three events at one time: the bounds for this time leave the first and the last of them out.
  lemma TiedEventsAreMissed()
    ensures var at := [5, 5, 5];
            Sorted(at) && Place(at, 5) == 1 && !CoversEvents(at, 5, 5, 1, 2)
  {
    var at := [5, 5, 5];
    assert at[0] == 5;
  }
}
