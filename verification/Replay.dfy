// The cached search of the replay in Visualizer/vis.py (lines 77-83, 143-153, 278-336, 402-408):
// for every UAV the samples just before and just after the simulation time. Times and positions are
// reals; drawing is left out.

module Replay {
  import opened Sequences

  datatype Vec3 = Vec3(x: real, y: real, z: real)

  datatype Sample = Sample(uav: string, time: real, pos: Vec3)

  predicate Of(lines: seq<Sample>, i: int, uav: string) {
    0 <= i < |lines| && lines[i].uav == uav
  }

  // The first line about the UAV later than t, or the end of the file.
  ghost predicate FirstLater(lines: seq<Sample>, uav: string, t: real, end: nat) {
    && end <= |lines|
    && (end < |lines| ==> Of(lines, end, uav) && lines[end].time > t)
    && forall j :: Of(lines, j, uav) && j < end ==> lines[j].time <= t
  }

  // The last line about the UAV before end, if there is one.
  ghost predicate LastBefore(lines: seq<Sample>, uav: string, end: nat, before: Option<nat>) {
    match before
    case None => forall j :: Of(lines, j, uav) ==> j >= end
    case Some(b) => b < end && Of(lines, b, uav) && forall j :: Of(lines, j, uav) && j > b ==> j >= end
  }

  // What a scan of all lines from the first one on finds for time t.
  ghost predicate FullScan(lines: seq<Sample>, uav: string, t: real, before: Option<nat>, after: Option<nat>) {
    var end := if after.Some? then after.value else |lines|;
    && (after.Some? ==> after.value < |lines|)
    && FirstLater(lines, uav, t, end)
    && LastBefore(lines, uav, end, before)
  }

  // A full scan has one answer only.
  lemma FullScanUnique(lines: seq<Sample>, uav: string, t: real, b1: Option<nat>, a1: Option<nat>,
                       b2: Option<nat>, a2: Option<nat>)
    requires FullScan(lines, uav, t, b1, a1) && FullScan(lines, uav, t, b2, a2)
    ensures b1 == b2 && a1 == a2
  {
    var e1 := if a1.Some? then a1.value else |lines|;
    var e2 := if a2.Some? then a2.value else |lines|;
    assert e1 == e2 by {
      assert e1 < |lines| ==> Of(lines, e1, uav);
      assert e2 < |lines| ==> Of(lines, e2, uav);
    }
    if b1.Some? { assert Of(lines, b1.value, uav); }
    if b2.Some? { assert Of(lines, b2.value, uav); }
  }

  // Starting at index last loses nothing: what precedes it about the UAV is not later than t, and
  // the last such line, if any, is at last itself.
  ghost predicate CacheOk(lines: seq<Sample>, uav: string, t: real, last: nat) {
    && last <= |lines|
    && (forall j :: Of(lines, j, uav) && j < last ==> lines[j].time <= t)
    && ((exists j :: Of(lines, j, uav) && j < last) ==> Of(lines, last, uav) && lines[last].time <= t)
  }

  function Lerp(a: real, b: real, f: real): real { a + (b - a) * f }

  function Normalize(a: real, b: real, value: real): real
    requires a != b
  {
    (value - a) / (b - a)
  }

  function LerpVec(a: Vec3, b: Vec3, f: real): Vec3 {
    Vec3(Lerp(a.x, b.x, f), Lerp(a.y, b.y, f), Lerp(a.z, b.z, f))
  }

  // Where a UAV is drawn, if anywhere. Unequal times are what keeps normalize from dividing by 0.
  function Position(lines: seq<Sample>, t: real, before: Option<nat>, after: Option<nat>): Option<Vec3>
    requires before.Some? ==> before.value < |lines|
    requires after.Some? ==> after.value < |lines|
    requires before.Some? && after.Some? ==> lines[before.value].time != lines[after.value].time
  {
    match (before, after)
    case (None, None) => None
    case (Some(b), None) => Some(lines[b].pos)
    case (None, Some(a)) => Some(lines[a].pos)
    case (Some(b), Some(a)) =>
      var f := Normalize(lines[b].time, lines[a].time, t);
      Some(LerpVec(lines[b].pos, lines[a].pos, f))
  }

  ghost predicate Between(a: real, b: real, v: real) {
    (a <= v <= b) || (b <= v <= a)
  }

  lemma Product(x: real, y: real)
    requires x >= 0.0 && y >= 0.0
    ensures x * y >= 0.0
  {
  }

  lemma Scaled(d: real, f: real)
    requires 0.0 <= f < 1.0
    ensures d >= 0.0 ==> 0.0 <= d * f <= d
    ensures d <= 0.0 ==> d <= d * f <= 0.0
  {
    if d >= 0.0 {
      Product(d, f);
      Product(d, 1.0 - f);
    } else {
      Product(-d, f);
      Product(-d, 1.0 - f);
    }
  }

  lemma StepBetween(a: real, d: real, f: real)
    requires 0.0 <= f < 1.0
    ensures Between(a, a + d, a + d * f)
  {
    Scaled(d, f);
  }

  lemma LerpBetween(a: real, b: real, f: real)
    requires 0.0 <= f < 1.0
    ensures Between(a, b, Lerp(a, b, f))
  {
    StepBetween(a, b - a, f);
    assert a + (b - a) == b;
  }

  lemma Negative(f: real, d: real)
    requires f < 0.0 && d > 0.0
    ensures f * d < 0.0
  {
  }

  lemma AtLeast(f: real, d: real)
    requires f >= 1.0 && d > 0.0
    ensures f * d >= d
  {
    Product(f - 1.0, d);
  }

  lemma Ratio(n: real, d: real, f: real)
    requires 0.0 <= n < d && f * d == n
    ensures 0.0 <= f < 1.0
  {
    if f < 0.0 {
      Negative(f, d);
    } else if f >= 1.0 {
      AtLeast(f, d);
    }
  }

  lemma FactorInUnit(a: real, b: real, t: real)
    requires a <= t < b
    ensures 0.0 <= Normalize(a, b, t) < 1.0
  {
    Ratio(t - a, b - a, Normalize(a, b, t));
  }

  // For every file: the factor lies in [0, 1) and the drawn position between the two samples.
  lemma DrawnBetween(lines: seq<Sample>, uav: string, t: real, b: nat, a: nat)
    requires FullScan(lines, uav, t, Some(b), Some(a))
    ensures lines[b].time <= t < lines[a].time
    ensures 0.0 <= Normalize(lines[b].time, lines[a].time, t) < 1.0
    ensures var p := Position(lines, t, Some(b), Some(a)).value;
            && Between(lines[b].pos.x, lines[a].pos.x, p.x)
            && Between(lines[b].pos.y, lines[a].pos.y, p.y)
            && Between(lines[b].pos.z, lines[a].pos.z, p.z)
  {
    assert Of(lines, b, uav);
    FactorInUnit(lines[b].time, lines[a].time, t);
    var f := Normalize(lines[b].time, lines[a].time, t);
    LerpBetween(lines[b].pos.x, lines[a].pos.x, f);
    LerpBetween(lines[b].pos.y, lines[a].pos.y, f);
    LerpBetween(lines[b].pos.z, lines[a].pos.z, f);
  }

  lemma Proportional(d: real, n: real, f: real)
    requires d != 0.0 && f == n / d
    ensures f * d == n
  {
  }

  lemma LerpOnLine(a: real, b: real, f: real, d: real, n: real)
    requires f * d == n
    ensures (Lerp(a, b, f) - a) * d == (b - a) * n
  {
    assert (Lerp(a, b, f) - a) == (b - a) * f;
    assert ((b - a) * f) * d == (b - a) * (f * d);
  }

  // p is on the line through the two samples, as far along as t is in time.
  ghost predicate OnLine(before: Sample, after: Sample, t: real, p: Vec3) {
    && (p.x - before.pos.x) * (after.time - before.time) == (after.pos.x - before.pos.x) * (t - before.time)
    && (p.y - before.pos.y) * (after.time - before.time) == (after.pos.y - before.pos.y) * (t - before.time)
    && (p.z - before.pos.z) * (after.time - before.time) == (after.pos.z - before.pos.z) * (t - before.time)
  }

  // Where a UAV is drawn: on the way from the last sample before to the first one after, in proportion to
  // time; at the only one of them if there is just one; nowhere without samples.
  lemma DrawnInProportion(lines: seq<Sample>, uav: string, t: real, before: Option<nat>, after: Option<nat>)
    requires FullScan(lines, uav, t, before, after)
    ensures before.Some? ==> Of(lines, before.value, uav) && lines[before.value].time <= t
    ensures after.Some? ==> Of(lines, after.value, uav) && t < lines[after.value].time
    ensures before.Some? && after.Some? ==>
              exists p :: Position(lines, t, before, after) == Some(p)
                          && OnLine(lines[before.value], lines[after.value], t, p)
    ensures before.Some? && after.None? ==> Position(lines, t, before, after) == Some(lines[before.value].pos)
    ensures before.None? && after.Some? ==> Position(lines, t, before, after) == Some(lines[after.value].pos)
    ensures before.None? && after.None? ==>
              Position(lines, t, before, after) == None && forall s :: s in lines ==> s.uav != uav
  {
    if before.None? && after.None? {
      forall s | s in lines ensures s.uav != uav {
        var j :| 0 <= j < |lines| && lines[j] == s;
        assert !Of(lines, j, uav);
      }
    }
    if before.Some? { assert Of(lines, before.value, uav); }
    if before.Some? && after.Some? {
      var b, a := lines[before.value], lines[after.value];
      var f := Normalize(b.time, a.time, t);
      Proportional(a.time - b.time, t - b.time, f);
      LerpOnLine(b.pos.x, a.pos.x, f, a.time - b.time, t - b.time);
      LerpOnLine(b.pos.y, a.pos.y, f, a.time - b.time, t - b.time);
      LerpOnLine(b.pos.z, a.pos.z, f, a.time - b.time, t - b.time);
      assert OnLine(b, a, t, LerpVec(b.pos, a.pos, f));
    }
  }

  // The UAVs of a set for which no later sample was found.
  ghost function Finished(afterIndices: map<string, Option<nat>>, us: set<string>): set<string>
    requires us <= afterIndices.Keys
  {
    set u | u in us && afterIndices[u] == None
  }

  lemma FinishedNext(m0: map<string, Option<nat>>, m1: map<string, Option<nat>>, us: set<string>, uav: string)
    requires us <= m0.Keys && us + {uav} <= m1.Keys && uav !in us
    requires forall u :: u in us ==> m0[u] == m1[u]
    ensures |Finished(m1, us + {uav})| == |Finished(m0, us)| + if m1[uav] == None then 1 else 0
  {
    assert Finished(m1, us + {uav}) == Finished(m0, us) + if m1[uav] == None then {uav} else {};
  }

  class Player {
    const lines: seq<Sample>
    const uavs: set<string>
    var lastIndex: map<string, nat>
    var beforeIndices: map<string, Option<nat>>
    var afterIndices: map<string, Option<nat>>
    var simulationTime: real

    ghost predicate Cached(u: string)
      reads this
    {
      u in lastIndex && CacheOk(lines, u, simulationTime, lastIndex[u])
    }

    ghost predicate Valid()
      reads this
    {
      && lastIndex.Keys == beforeIndices.Keys == afterIndices.Keys == uavs
      && forall u {:trigger Cached(u)} :: u in uavs ==> Cached(u)
    }

    // The indices found for u are those of a scan of all lines.
    ghost predicate Answered(u: string)
      reads this
    {
      && u in beforeIndices && u in afterIndices
      && FullScan(lines, u, simulationTime, beforeIndices[u], afterIndices[u])
    }

    constructor (lines: seq<Sample>)
      ensures Valid() && this.lines == lines && simulationTime == 0.0
      ensures uavs == set s | s in lines :: s.uav
    {
      this.lines := lines;
      var us := set s | s in lines :: s.uav;
      uavs := us;
      lastIndex := map u | u in us :: 0;
      beforeIndices := map u | u in us :: None;
      afterIndices := map u | u in us :: None;
      simulationTime := 0.0;
    }

    // The while loop for one UAV, from its cached index on.
    method Search(uav: string, start: nat) returns (before: Option<nat>, after: Option<nat>, last: nat)
      requires CacheOk(lines, uav, simulationTime, start)
      ensures FullScan(lines, uav, simulationTime, before, after)
      ensures CacheOk(lines, uav, simulationTime, last)
      ensures last == if before.Some? then before.value else if after.Some? then after.value else |lines|
    {
      var searchIndex := start;
      before, after := None, None;
      while searchIndex < |lines|
        invariant start <= searchIndex <= |lines| && after == None
        invariant forall j :: Of(lines, j, uav) && j < searchIndex ==> lines[j].time <= simulationTime
        invariant searchIndex > start || before == None
        invariant searchIndex > start ==> LastBefore(lines, uav, searchIndex, before)
        decreases |lines| - searchIndex
      {
        var data := lines[searchIndex];
        if data.uav == uav {
          assert Of(lines, searchIndex, uav);
          if data.time <= simulationTime {
            before := Some(searchIndex);
          } else {
            after := Some(searchIndex);
            break;
          }
        }
        searchIndex := searchIndex + 1;
      }
      last := if before.Some? then before.value else searchIndex;
    }

    // The turn of the loop for one UAV.
    method Update(uav: string) returns (after: Option<nat>)
      requires Valid() && uav in uavs
      modifies this
      ensures Valid() && simulationTime == old(simulationTime)
      ensures Answered(uav)
      ensures after == afterIndices[uav]
      ensures forall u :: u in uavs && u != uav ==>
                beforeIndices[u] == old(beforeIndices)[u] && afterIndices[u] == old(afterIndices)[u]
    {
      assert Cached(uav);
      var before, last;
      before, after, last := Search(uav, lastIndex[uav]);
      lastIndex := lastIndex[uav := last];
      beforeIndices := beforeIndices[uav := before];
      afterIndices := afterIndices[uav := after];
      assert Cached(uav);
      forall u | u in uavs && u != uav ensures Cached(u) {
        assert old(Cached(u)) && lastIndex[u] == old(lastIndex)[u];
      }
    }

    // Every UAV of a set has its full-scan answer, and done of them have no later sample.
    ghost predicate Searched(us: set<string>, done: nat)
      reads this
    {
      && us <= afterIndices.Keys
      && (forall u {:trigger Answered(u)} :: u in us ==> Answered(u))
      && done == |Finished(afterIndices, us)|
    }

    method UpdateNext(uav: string, ghost seen: set<string>, done0: nat) returns (done: nat)
      requires Valid() && uav in uavs && seen <= uavs && uav !in seen && Searched(seen, done0)
      modifies this
      ensures Valid() && simulationTime == old(simulationTime)
      ensures Searched(seen + {uav}, done)
    {
      ghost var m0 := afterIndices;
      var after := Update(uav);
      done := if after == None then done0 + 1 else done0;
      FinishedNext(m0, afterIndices, seen, uav);
      forall u | u in seen ensures Answered(u) { assert old(Answered(u)); }
    }

    // The loop over the UAVs.
    method SearchAll() returns (done: nat)
      requires Valid()
      modifies this
      ensures Valid() && simulationTime == old(simulationTime)
      ensures Searched(uavs, done)
    {
      done := 0;
      var todo := uavs;
      while todo != {}
        invariant todo <= uavs
        invariant Valid() && simulationTime == old(simulationTime)
        invariant Searched(uavs - todo, done)
      {
        var uav :| uav in todo;
        done := UpdateNext(uav, uavs - todo, done);
        assert uavs - (todo - {uav}) == uavs - todo + {uav};
        todo := todo - {uav};
      }
      assert uavs - todo == uavs;
    }

    // simulation_time += delta_time, up to 25 seconds. What the cache says of one time holds of every
    // later one.
    method Advance(delta: real)
      requires Valid() && delta >= 0.0
      modifies this`simulationTime
      ensures Valid()
      ensures simulationTime == if old(simulationTime) < 25.0 then old(simulationTime) + delta else old(simulationTime)
    {
      if simulationTime < 25.0 {
        simulationTime := simulationTime + delta;
      }
      forall u | u in uavs ensures Cached(u) { assert old(Cached(u)); }
    }

    // One frame: the cached searches find what scans of the whole file would.
    method Frame(delta: real) returns (done: nat, ghost frameTime: real)
      requires Valid() && delta >= 0.0
      modifies this
      ensures Valid() && frameTime == old(simulationTime)
      ensures simulationTime == if frameTime < 25.0 then frameTime + delta else frameTime
      ensures forall u :: u in uavs ==> FullScan(lines, u, frameTime, beforeIndices[u], afterIndices[u])
      ensures done == |Finished(afterIndices, uavs)|
    {
      frameTime := simulationTime;
      done := SearchAll();
      forall u | u in uavs ensures FullScan(lines, u, frameTime, beforeIndices[u], afterIndices[u]) {
        assert Answered(u);
      }
      ghost var before, after := beforeIndices, afterIndices;
      Advance(delta);
      assert beforeIndices == before && afterIndices == after;
    }
  }
}
