// Enumeration of all simple cycles: find_cycles in bindings/python/topsort.py (lines 235-385).

module Cycles {
  import opened Sequences
  import opened Rotation

  // parent -> collection of children; a node without a key has no children.
  type Graph<T> = map<T, seq<T>>

  predicate Edge<T(==)>(g: Graph<T>, a: T, b: T) {
    a in g && b in g[a]
  }

  function Last<T>(s: seq<T>): T
    requires s != []
  {
    s[|s| - 1]
  }

  ghost predicate SimplePath<T>(g: Graph<T>, p: seq<T>) {
    && p != []
    && Distinct(p)
    && forall i :: 0 <= i < |p| - 1 ==> Edge(g, p[i], p[i + 1])
  }

  // "The last item in each cycle list is a parent of the first item."
  ghost predicate SimpleCycle<T>(g: Graph<T>, c: seq<T>) {
    SimplePath(g, c) && Edge(g, Last(c), c[0])
  }

  ghost predicate Found<T>(cycles: seq<seq<T>>, c: seq<T>) {
    exists i :: 0 <= i < |cycles| && IsRotation(cycles[i], c)
  }

  ghost predicate DistinctUpToRotation<T>(cycles: seq<seq<T>>) {
    forall i, j :: 0 <= i < j < |cycles| ==> !IsRotation(cycles[i], cycles[j])
  }

  // ---------- Termination: the work a stack of simple paths still causes ----------

  ghost function Nodes<T>(g: Graph<T>): set<T> {
    g.Keys + set p, c | p in g && c in g[p] :: c
  }

  ghost predicate Inside<T>(g: Graph<T>, p: seq<T>) {
    p != [] && Distinct(p) && Elements(p) <= Nodes(g)
  }

  // The number of paths popped from the stack on behalf of p: p and its simple extensions.
  ghost function Work<T>(g: Graph<T>, p: seq<T>): nat
    requires Inside(g, p)
    decreases |Nodes(g)| - |p|, 1, 0
  {
    DistinctBound(p, Nodes(g));
    1 + if Last(p) in g then ChildWork(g, p, g[Last(p)]) else 0
  }

  ghost function ChildWork<T>(g: Graph<T>, p: seq<T>, cs: seq<T>): nat
    requires Inside(g, p)
    decreases |Nodes(g)| - |p|, 0, |cs|
  {
    if cs == [] then 0
    else
      var c := cs[|cs| - 1];
      ChildWork(g, p, cs[..|cs| - 1]) +
      if c in p || c !in Nodes(g) then 0
      else
        assert Elements(p + [c]) == Elements(p) + {c};
        DistinctBound(p + [c], Nodes(g));
        Work(g, p + [c])
  }

  ghost function StackWork<T>(g: Graph<T>, paths: seq<seq<T>>): nat
    requires forall i :: 0 <= i < |paths| ==> Inside(g, paths[i])
  {
    if paths == [] then 0
    else StackWork(g, paths[..|paths| - 1]) + Work(g, paths[|paths| - 1])
  }

  // ---------- Exhaustiveness ----------

  // The first n edges out of q that come back to q have had their cycles recorded.
  ghost predicate ClosedTo<T>(g: Graph<T>, cycles: seq<seq<T>>, q: seq<T>, n: nat)
    requires q != []
  {
    Last(q) in g ==>
      forall k :: 0 <= k < n && k < |g[Last(q)]| && g[Last(q)][k] in q ==>
        Found(cycles, q[IndexOf(q, g[Last(q)][k])..])
  }

  ghost predicate Closed<T>(g: Graph<T>, cycles: seq<seq<T>>, q: seq<T>)
    requires q != []
  {
    Last(q) in g ==> ClosedTo(g, cycles, q, |g[Last(q)]|)
  }

  ghost predicate OnStack<T>(paths: seq<seq<T>>, q: seq<T>) {
    exists j :: 0 <= j < |paths| && paths[j] <= q
  }

  // Every simple path from s is done with, or will be produced from the stack.
  ghost predicate Covered<T(!new)>(g: Graph<T>, cycles: seq<seq<T>>, paths: seq<seq<T>>, s: T) {
    forall q :: SimplePath(g, q) && q[0] == s ==> Closed(g, cycles, q) || OnStack(paths, q)
  }

  ghost predicate Exhausted<T(!new)>(g: Graph<T>, cycles: seq<seq<T>>, s: T) {
    forall q :: SimplePath(g, q) && q[0] == s ==> Closed(g, cycles, q)
  }

  ghost predicate Reaches<T(!new)>(g: Graph<T>, s: T, v: T) {
    exists q :: SimplePath(g, q) && q[0] == s && Last(q) == v
  }

  // The suffix of a simple path from a child of its last node is a simple cycle.
  lemma SuffixIsCycle<T>(g: Graph<T>, p: seq<T>, child: T)
    requires SimplePath(g, p) && Edge(g, Last(p), child) && child in p
    ensures SimpleCycle(g, p[IndexOf(p, child)..])
  {
    var i := IndexOf(p, child);
    var c := p[i..];
    assert forall k :: 0 <= k < |c| ==> c[k] == p[i + k];
  }

  lemma RotatedCycle<T>(g: Graph<T>, c: seq<T>, j: nat)
    requires SimpleCycle(g, c) && j < |c|
    ensures SimpleCycle(g, Rotate(c, j))
  {
    var r := Rotate(c, j);
    var n := |c|;
    forall k | 0 <= k < n - 1 ensures Edge(g, r[k], r[k + 1]) {
      if k + j + 1 < n {
        assert r[k] == c[k + j] && r[k + 1] == c[k + j + 1];
      } else if k + j + 1 == n {
        assert r[k] == c[n - 1] && r[k + 1] == c[0];
      } else {
        assert r[k] == c[k + j - n] && r[k + 1] == c[k + 1 + j - n];
      }
    }
    if j > 0 {
      assert Last(r) == c[j - 1] && r[0] == c[j];
    }
  }

  // A simple path that ends where the cycle passes meets it for the first time somewhere.
  lemma FirstMeeting<T>(q: seq<T>, c: seq<T>) returns (i: nat, j: nat)
    requires q != [] && Last(q) in c
    ensures i < |q| && j < |c| && q[i] == c[j]
    ensures forall k :: 0 <= k < i ==> q[k] !in c
  {
    i := 0;
    while q[i] !in c
      invariant i < |q|
      invariant forall k :: 0 <= k < i ==> q[k] !in c
      decreases |q| - i
    {
      i := i + 1;
    }
    j :| 0 <= j < |c| && c[j] == q[i];
  }

  // The path to the cycle followed by one round is simple, and closes the cycle.
  lemma ApproachAndRound<T>(g: Graph<T>, q: seq<T>, c: seq<T>, i: nat, j: nat)
    requires SimplePath(g, q) && SimpleCycle(g, c)
    requires i < |q| && j < |c| && q[i] == c[j]
    requires forall k :: 0 <= k < i ==> q[k] !in c
    ensures SimplePath(g, q[..i] + Rotate(c, j))
    ensures (q[..i] + Rotate(c, j))[0] == q[0]
  {
    var r := Rotate(c, j);
    var p := q[..i] + r;
    RotatedCycle(g, c, j);
    assert forall k :: 0 <= k < |r| ==> r[k] in c;
    assert forall k :: 0 <= k < i ==> p[k] == q[k];
    assert forall k :: i <= k < |p| ==> p[k] == r[k - i];
    assert r[0] == q[i];
    forall k | 0 <= k < |p| - 1 ensures Edge(g, p[k], p[k + 1]) {
      if k + 1 < i {
      } else if k + 1 == i {
        assert p[k] == q[k] && p[k + 1] == q[k + 1];
      } else {
        assert p[k] == r[k - i] && p[k + 1] == r[k - i + 1];
      }
    }
  }

  // If every simple path from s has been closed, every cycle reachable from s was found.
  lemma ReachableCycleFound<T(!new)>(g: Graph<T>, cycles: seq<seq<T>>, s: T, c: seq<T>)
    requires Exhausted(g, cycles, s) && SimpleCycle(g, c) && Reaches(g, s, c[0])
    ensures Found(cycles, c)
  {
    var q :| SimplePath(g, q) && q[0] == s && Last(q) == c[0];
    var i, j := FirstMeeting(q, c);
    ApproachAndRound(g, q, c, i, j);
    var r := Rotate(c, j);
    var p := q[..i] + r;
    RotatedCycle(g, c, j);
    assert Last(p) == Last(r) && p[i] == r[0];
    var k :| 0 <= k < |g[Last(p)]| && g[Last(p)][k] == r[0];
    assert IndexOf(p, r[0]) == i;
    assert p[i..] == r;
    assert Closed(g, cycles, p);
    assert Found(cycles, r);
    var m :| 0 <= m < |cycles| && IsRotation(cycles[m], r);
    RotationSymmetric(c, r);
    RotationTransitive(cycles[m], r, c);
  }

  // A path that strictly extends p continues with one of the children pushed for p.
  lemma ExtensionStep<T>(g: Graph<T>, p: seq<T>, q: seq<T>) returns (k: nat)
    requires SimplePath(g, p) && SimplePath(g, q) && p < q
    ensures Last(p) in g && k < |g[Last(p)]| && g[Last(p)][k] !in p
    ensures p + [g[Last(p)][k]] <= q
  {
    var n := |p|;
    assert q[n - 1] == Last(p);
    assert Edge(g, q[n - 1], q[n]);
    k :| 0 <= k < |g[Last(p)]| && g[Last(p)][k] == q[n];
  }

  lemma ExtendPath<T>(g: Graph<T>, p: seq<T>, child: T)
    requires SimplePath(g, p) && Inside(g, p) && Edge(g, Last(p), child) && child !in p
    ensures SimplePath(g, p + [child]) && Inside(g, p + [child])
  {
    assert Elements(p + [child]) == Elements(p) + {child};
  }

  lemma ClosedGrows<T>(g: Graph<T>, before: seq<seq<T>>, after: seq<seq<T>>, q: seq<T>)
    requires before <= after && q != []
    ensures forall n: nat :: ClosedTo(g, before, q, n) ==> ClosedTo(g, after, q, n)
  {
    forall c | Found(before, c) ensures Found(after, c) {
      var i :| 0 <= i < |before| && IsRotation(before[i], c);
      assert after[i] == before[i];
    }
  }

  // Popping p, closing it and pushing its extensions keeps every path covered.
  lemma CoveredStep<T(!new)>(g: Graph<T>, before: seq<seq<T>>, after: seq<seq<T>>,
                             rest: seq<seq<T>>, p: seq<T>, paths: seq<seq<T>>, s: T)
    requires Covered(g, before, rest + [p], s) && SimplePath(g, p)
    requires before <= after && rest <= paths && Closed(g, after, p)
    requires Last(p) in g ==> forall c :: c in g[Last(p)] && c !in p ==> p + [c] in paths
    ensures Covered(g, after, paths, s)
  {
    forall q | SimplePath(g, q) && q[0] == s ensures Closed(g, after, q) || OnStack(paths, q) {
      if Closed(g, before, q) {
        ClosedGrows(g, before, after, q);
      } else {
        var j :| 0 <= j < |rest + [p]| && (rest + [p])[j] <= q;
        if j < |rest| {
          assert paths[j] <= q;
        } else if p != q {
          var k := ExtensionStep(g, p, q);
          var i :| 0 <= i < |paths| && paths[i] == p + [g[Last(p)][k]];
        }
      }
    }
  }

  method IsDuplicate<T(==)>(cycles: seq<seq<T>>, cycle: seq<T>) returns (isDup: bool)
    requires cycle != []
    ensures isDup <==> Found(cycles, cycle)
  {
    isDup := false;
    for i := 0 to |cycles|
      invariant !isDup && forall j :: 0 <= j < i ==> !IsRotation(cycles[j], cycle)
    {
      var r := IsRotated(cycles[i], cycle);
      if r.value {
        return true;
      }
    }
  }

  lemma ExhaustedGrows<T(!new)>(g: Graph<T>, before: seq<seq<T>>, after: seq<seq<T>>, s: T)
    requires before <= after && Exhausted(g, before, s)
    ensures Exhausted(g, after, s)
  {
    forall q | SimplePath(g, q) && q[0] == s ensures Closed(g, after, q) {
      ClosedGrows(g, before, after, q);
    }
  }

  // What the loops below keep: only simple cycles, no two of them rotations of each other.
  ghost predicate CycleList<T>(g: Graph<T>, cycles: seq<seq<T>>) {
    && (forall i :: 0 <= i < |cycles| ==> SimpleCycle(g, cycles[i]))
    && DistinctUpToRotation(cycles)
  }

  ghost predicate PathsFrom<T>(g: Graph<T>, paths: seq<seq<T>>, s: T) {
    forall i :: 0 <= i < |paths| ==> SimplePath(g, paths[i]) && paths[i][0] == s && Inside(g, paths[i])
  }

  ghost predicate NewlyReached<T(!new)>(g: Graph<T>, s: T, before: set<T>, after: set<T>) {
    before <= after && forall v :: v in after && v !in before ==> Reaches(g, s, v)
  }

  lemma AddCycle<T>(g: Graph<T>, cycles: seq<seq<T>>, c: seq<T>)
    requires CycleList(g, cycles) && SimpleCycle(g, c) && !Found(cycles, c)
    ensures CycleList(g, cycles + [c]) && Found(cycles + [c], c)
  {
    RotationReflexive(c);
    assert (cycles + [c])[|cycles|] == c;
  }

  lemma CloseNext<T>(g: Graph<T>, before: seq<seq<T>>, after: seq<seq<T>>, q: seq<T>, n: nat)
    requires q != [] && Last(q) in g && n < |g[Last(q)]|
    requires before <= after && ClosedTo(g, before, q, n)
    requires g[Last(q)][n] in q ==> Found(after, q[IndexOf(q, g[Last(q)][n])..])
    ensures ClosedTo(g, after, q, n + 1)
  {
    ClosedGrows(g, before, after, q);
  }

  // A child that lies on the path closes a cycle, which is recorded unless it is a duplicate.
  method RecordCycle<T(==)>(g: Graph<T>, path: seq<T>, child: T, cycles0: seq<seq<T>>)
    returns (cycles: seq<seq<T>>)
    requires SimplePath(g, path) && Edge(g, Last(path), child) && child in path
    requires CycleList(g, cycles0)
    ensures cycles0 <= cycles && CycleList(g, cycles)
    ensures Found(cycles, path[IndexOf(path, child)..])
  {
    cycles := cycles0;
    var cycle := path[IndexOf(path, child)..];
    SuffixIsCycle(g, path, child);
    var isDup := IsDuplicate(cycles, cycle);
    if !isDup {
      AddCycle(g, cycles, cycle);
      cycles := cycles + [cycle];
    }
  }

  lemma PushPath<T(!new)>(g: Graph<T>, paths: seq<seq<T>>, p: seq<T>, child: T)
    requires SimplePath(g, p) && Inside(g, p) && Edge(g, Last(p), child) && child !in p
    requires PathsFrom(g, paths, p[0])
    ensures PathsFrom(g, paths + [p + [child]], p[0])
    ensures StackWork(g, paths + [p + [child]]) == StackWork(g, paths) + Work(g, p + [child])
    ensures Reaches(g, p[0], child)
  {
    var longer := p + [child];
    ExtendPath(g, p, child);
    assert longer[0] == p[0] && Last(longer) == child;
    assert (paths + [longer])[..|paths|] == paths;
  }

  lemma ChildWorkStep<T>(g: Graph<T>, p: seq<T>, n: nat)
    requires SimplePath(g, p) && Inside(g, p) && Last(p) in g && n < |g[Last(p)]|
    ensures g[Last(p)][n] in p ==>
              ChildWork(g, p, g[Last(p)][..n + 1]) == ChildWork(g, p, g[Last(p)][..n])
    ensures g[Last(p)][n] !in p ==>
              Inside(g, p + [g[Last(p)][n]]) &&
              ChildWork(g, p, g[Last(p)][..n + 1])
              == ChildWork(g, p, g[Last(p)][..n]) + Work(g, p + [g[Last(p)][n]])
  {
    var cs := g[Last(p)];
    assert cs[..n + 1][..n] == cs[..n];
    if cs[n] !in p { ExtendPath(g, p, cs[n]); }
  }

  method ExpandPath<T(==,!new)>(g: Graph<T>, path: seq<T>, rest: seq<seq<T>>,
                                cycles0: seq<seq<T>>, visited0: set<T>)
    returns (cycles: seq<seq<T>>, paths: seq<seq<T>>, visited: set<T>)
    requires SimplePath(g, path) && Inside(g, path) && Last(path) in g
    requires PathsFrom(g, rest, path[0]) && CycleList(g, cycles0)
    ensures cycles0 <= cycles && CycleList(g, cycles) && Closed(g, cycles, path)
    ensures rest <= paths && PathsFrom(g, paths, path[0])
    ensures forall c :: c in g[Last(path)] && c !in path ==> path + [c] in paths
    ensures NewlyReached(g, path[0], visited0, visited)
    ensures StackWork(g, paths) + 1 == StackWork(g, rest) + Work(g, path)
  {
    cycles, paths, visited := cycles0, rest, visited0;
    var children := g[Last(path)];
    for n := 0 to |children|
      invariant cycles0 <= cycles && CycleList(g, cycles) && ClosedTo(g, cycles, path, n)
      invariant rest <= paths && PathsFrom(g, paths, path[0])
      invariant forall k :: 0 <= k < n && children[k] !in path ==> path + [children[k]] in paths
      invariant NewlyReached(g, path[0], visited0, visited)
      invariant StackWork(g, paths) == StackWork(g, rest) + ChildWork(g, path, children[..n])
    {
      var child := children[n];
      assert Edge(g, Last(path), child);
      ChildWorkStep(g, path, n);
      ghost var before := cycles;
      if child in path {
        cycles := RecordCycle(g, path, child, cycles);
      } else {
        PushPath(g, paths, path, child);
        paths := paths + [path + [child]];
        visited := visited + {child};
      }
      CloseNext(g, before, cycles, path, n);
    }
    assert children[..|children|] == children;
  }

  // The while loop over the stack of paths started at one parent.
  method Explore<T(==,!new)>(g: Graph<T>, start: T, cycles0: seq<seq<T>>, visited0: set<T>)
    returns (cycles: seq<seq<T>>, visited: set<T>)
    requires start in g && CycleList(g, cycles0)
    ensures cycles0 <= cycles && CycleList(g, cycles) && Exhausted(g, cycles, start)
    ensures NewlyReached(g, start, visited0, visited)
  {
    cycles, visited := cycles0, visited0;
    var paths := [[start]];
    while paths != []
      invariant PathsFrom(g, paths, start)
      invariant cycles0 <= cycles && CycleList(g, cycles)
      invariant Covered(g, cycles, paths, start)
      invariant NewlyReached(g, start, visited0, visited)
      decreases StackWork(g, paths)
    {
      var path := Last(paths);
      ghost var before := cycles;
      assert paths == paths[..|paths| - 1] + [path];
      paths := paths[..|paths| - 1];
      ghost var rest := paths;
      if Last(path) in g {
        cycles, paths, visited := ExpandPath(g, path, paths, cycles, visited);
      }
      CoveredStep(g, before, cycles, rest, path, paths, start);
    }
    forall q | SimplePath(g, q) && q[0] == start ensures Closed(g, cycles, q) {
      assert !OnStack(paths, q);
    }
  }

  method FindCycles<T(==,!new)>(parentChildren: Graph<T>) returns (cycles: seq<seq<T>>)
    ensures forall i :: 0 <= i < |cycles| ==> SimpleCycle(parentChildren, cycles[i])
    ensures DistinctUpToRotation(cycles)
    ensures forall c :: SimpleCycle(parentChildren, c) ==> Found(cycles, c)
  {
    cycles := [];
    var visited: set<T> := {};
    var parents := parentChildren.Keys;
    ghost var started: set<T> := {};
    while parents != {}
      invariant parents <= parentChildren.Keys
      invariant CycleList(parentChildren, cycles)
      invariant forall s :: s in started ==> Exhausted(parentChildren, cycles, s)
      invariant forall v :: v in visited ==> exists s :: s in started && Reaches(parentChildren, s, v)
      invariant forall v :: v in parentChildren && v !in parents ==> v in visited || v in started
      decreases |parents|
    {
      var parent :| parent in parents;
      parents := parents - {parent};
      if parent !in visited {
        ghost var before := cycles;
        cycles, visited := Explore(parentChildren, parent, cycles, visited);
        forall s | s in started + {parent} ensures Exhausted(parentChildren, cycles, s) {
          if s in started { ExhaustedGrows(parentChildren, before, cycles, s); }
        }
        started := started + {parent};
      }
    }
    forall c | SimpleCycle(parentChildren, c) ensures Found(cycles, c) {
      var v := c[0];
      assert v in parentChildren by {
        if |c| > 1 { assert Edge(parentChildren, c[0], c[1]); }
      }
      if v in started {
        assert SimplePath(parentChildren, [v]) && Last([v]) == v;
        ReachableCycleFound(parentChildren, cycles, v, c);
      } else {
        var s :| s in started && Reaches(parentChildren, s, v);
        ReachableCycleFound(parentChildren, cycles, s, c);
      }
    }
  }
}
