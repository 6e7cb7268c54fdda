// What dependency sorting is about: pairs, walks, depths and cycles, independent of any algorithm
// (bindings/python/topsort.py).

module Dependencies {
  import opened Sequences

  // "(parent, child) pairs"; pairs may repeat and an item may be its own parent.
  type Pairs<T> = seq<(T, T)>

  function Items<T>(pairs: Pairs<T>): (r: set<T>) {
    (set i | 0 <= i < |pairs| :: pairs[i].0) + (set i | 0 <= i < |pairs| :: pairs[i].1)
  }

  lemma PairItems<T>(pairs: Pairs<T>, p: T, c: T)
    requires (p, c) in pairs
    ensures p in Items(pairs) && c in Items(pairs)
  {
    var i :| 0 <= i < |pairs| && pairs[i] == (p, c);
    assert pairs[i].0 == p && pairs[i].1 == c;
  }

  // A walk follows pairs from parent to child; it may revisit items.
  ghost predicate IsWalk<T>(pairs: Pairs<T>, w: seq<T>) {
    && w != []
    && w[0] in Items(pairs)
    && forall i :: 0 <= i < |w| - 1 ==> (w[i], w[i + 1]) in pairs
  }

  // Some walk of n steps arrives at x.
  ghost predicate HasWalk<T(!new)>(pairs: Pairs<T>, x: T, n: nat) {
    exists w :: IsWalk(pairs, w) && |w| == n + 1 && w[n] == x
  }

  // The longest walk arriving at x has exactly k steps.
  ghost predicate AtDepth<T(!new)>(pairs: Pairs<T>, x: T, k: nat) {
    HasWalk(pairs, x, k) && forall n :: n > k ==> !HasWalk(pairs, x, n)
  }

  ghost predicate DepthBelow<T(!new)>(pairs: Pairs<T>, x: T, k: nat) {
    exists j: nat :: j < k && AtDepth(pairs, x, j)
  }

  ghost predicate HasDepth<T(!new)>(pairs: Pairs<T>, x: T) {
    exists k: nat :: AtDepth(pairs, x, k)
  }

  ghost predicate IsCycle<T>(pairs: Pairs<T>, c: seq<T>) {
    IsWalk(pairs, c) && (c[|c| - 1], c[0]) in pairs
  }

  ghost predicate Cyclic<T(!new)>(pairs: Pairs<T>) {
    exists c :: IsCycle(pairs, c)
  }

  // ---------- Walks ----------

  lemma WalkEndsInItem<T>(pairs: Pairs<T>, w: seq<T>)
    requires IsWalk(pairs, w)
    ensures w[|w| - 1] in Items(pairs)
  {
    if |w| > 1 {
      var i := |w| - 2;
      PairItems(pairs, w[i], w[i + 1]);
    }
  }

  lemma HasWalkZero<T(!new)>(pairs: Pairs<T>, x: T)
    ensures HasWalk(pairs, x, 0) <==> x in Items(pairs)
  {
    if x in Items(pairs) {
      assert IsWalk(pairs, [x]) && |[x]| == 1 && [x][0] == x;
    }
  }

  lemma HasWalkStep<T(!new)>(pairs: Pairs<T>, p: T, x: T, n: nat)
    requires (p, x) in pairs && HasWalk(pairs, p, n)
    ensures HasWalk(pairs, x, n + 1)
  {
    var w :| IsWalk(pairs, w) && |w| == n + 1 && w[n] == p;
    var v := w + [x];
    forall i | 0 <= i < |v| - 1 ensures (v[i], v[i + 1]) in pairs {
      if i < n { assert v[i] == w[i] && v[i + 1] == w[i + 1]; }
    }
    assert IsWalk(pairs, v) && |v| == n + 2 && v[n + 1] == x;
  }

  lemma HasWalkParent<T(!new)>(pairs: Pairs<T>, x: T, n: nat) returns (p: T)
    requires HasWalk(pairs, x, n + 1)
    ensures (p, x) in pairs && HasWalk(pairs, p, n)
  {
    var w :| IsWalk(pairs, w) && |w| == n + 2 && w[n + 1] == x;
    p := w[n];
    assert (w[n], w[n + 1]) in pairs;
    var v := w[..n + 1];
    forall i | 0 <= i < |v| - 1 ensures (v[i], v[i + 1]) in pairs {
      assert (w[i], w[i + 1]) in pairs;
    }
    assert IsWalk(pairs, v) && |v| == n + 1 && v[n] == p;
  }

  // Dropping the first steps of a walk leaves a shorter walk.
  lemma {:induction false} HasWalkShorter<T(!new)>(pairs: Pairs<T>, x: T, n: nat, m: nat)
    requires HasWalk(pairs, x, n) && m <= n
    ensures HasWalk(pairs, x, m)
  {
    var w :| IsWalk(pairs, w) && |w| == n + 1 && w[n] == x;
    var v := w[n - m..];
    forall i | 0 <= i < |v| - 1 ensures (v[i], v[i + 1]) in pairs {
      assert (w[n - m + i], w[n - m + i + 1]) in pairs;
    }
    if m < n { PairItems(pairs, w[n - m - 1], w[n - m]); }
    assert IsWalk(pairs, v) && |v| == m + 1 && v[m] == x;
  }

  lemma DepthUnique<T(!new)>(pairs: Pairs<T>, x: T, j: nat, k: nat)
    requires AtDepth(pairs, x, j) && AtDepth(pairs, x, k)
    ensures j == k
  {
  }

  lemma ParentIsShallower<T(!new)>(pairs: Pairs<T>, p: T, x: T, j: nat, k: nat)
    requires (p, x) in pairs && AtDepth(pairs, p, j) && AtDepth(pairs, x, k)
    ensures j < k
  {
    HasWalkStep(pairs, p, x, j);
  }

  // Below a bounded item every parent has a depth.
  lemma {:induction false} DepthExists<T(!new)>(pairs: Pairs<T>, x: T, n: nat) returns (k: nat)
    requires x in Items(pairs) && !HasWalk(pairs, x, n)
    ensures k < n && AtDepth(pairs, x, k)
  {
    HasWalkZero(pairs, x);
    k := 0;
    while HasWalk(pairs, x, k + 1)
      invariant k < n && HasWalk(pairs, x, k)
      decreases n - k
    {
      k := k + 1;
    }
    forall m | m > k ensures !HasWalk(pairs, x, m) {
      if HasWalk(pairs, x, m) { HasWalkShorter(pairs, x, m, k + 1); }
    }
  }

  // The depth of an item is determined by its parents: one more than the deepest of them.
  lemma DepthFromParents<T(!new)>(pairs: Pairs<T>, x: T, k: nat)
    requires x in Items(pairs)
    requires forall p :: (p, x) in pairs ==> DepthBelow(pairs, p, k)
    requires k > 0 ==> exists p :: (p, x) in pairs && AtDepth(pairs, p, k - 1)
    ensures AtDepth(pairs, x, k)
  {
    if k == 0 {
      HasWalkZero(pairs, x);
    } else {
      var p :| (p, x) in pairs && AtDepth(pairs, p, k - 1);
      HasWalkStep(pairs, p, x, k - 1);
    }
    forall n | n > k ensures !HasWalk(pairs, x, n) {
      if HasWalk(pairs, x, n) {
        var p := HasWalkParent(pairs, x, n - 1);
      }
    }
  }

  lemma DepthParents<T(!new)>(pairs: Pairs<T>, x: T, k: nat)
    requires AtDepth(pairs, x, k)
    ensures x in Items(pairs)
    ensures forall p :: (p, x) in pairs ==> DepthBelow(pairs, p, k)
    ensures k > 0 ==> exists p :: (p, x) in pairs && AtDepth(pairs, p, k - 1)
  {
    HasWalkShorter(pairs, x, k, 0);
    HasWalkZero(pairs, x);
    forall p | (p, x) in pairs ensures DepthBelow(pairs, p, k) {
      PairItems(pairs, p, x);
      if HasWalk(pairs, p, k) { HasWalkStep(pairs, p, x, k); }
      var j := DepthExists(pairs, p, k);
    }
    if k > 0 {
      var p := HasWalkParent(pairs, x, k - 1);
      PairItems(pairs, p, x);
      if HasWalk(pairs, p, k) { HasWalkStep(pairs, p, x, k); }
      var j := DepthExists(pairs, p, k);
    }
  }

  // ---------- Cycles ----------

  // On a cycle there are walks of every length.
  lemma {:induction false} CycleHasLongWalks<T(!new)>(pairs: Pairs<T>, c: seq<T>, i: nat, n: nat)
    requires IsCycle(pairs, c) && i < |c|
    ensures HasWalk(pairs, c[i], n)
    decreases n
  {
    if n == 0 {
      WalkEndsInItem(pairs, c[..i + 1]);
      HasWalkZero(pairs, c[i]);
    } else {
      var j := if i == 0 then |c| - 1 else i - 1;
      assert (c[j], c[i]) in pairs;
      CycleHasLongWalks(pairs, c, j, n - 1);
      HasWalkStep(pairs, c[j], c[i], n - 1);
    }
  }

  lemma DepthsExcludeCycles<T(!new)>(pairs: Pairs<T>)
    requires forall x :: x in Items(pairs) ==> HasDepth(pairs, x)
    ensures !Cyclic(pairs)
  {
    if Cyclic(pairs) {
      var c :| IsCycle(pairs, c);
      assert HasDepth(pairs, c[0]);
      var k: nat :| AtDepth(pairs, c[0], k);
      CycleHasLongWalks(pairs, c, 0, k + 1);
    }
  }

  ghost predicate HasParentIn<T>(pairs: Pairs<T>, stuck: set<T>, x: T) {
    exists p :: p in stuck && (p, x) in pairs
  }

  // A set of items each of which waits for another one of the set.
  ghost predicate Stuck<T>(pairs: Pairs<T>, stuck: set<T>) {
    stuck <= Items(pairs) && forall x :: x in stuck ==> HasParentIn(pairs, stuck, x)
  }

  lemma ClosingWalk<T>(pairs: Pairs<T>, w: seq<T>, p: T) returns (c: seq<T>)
    requires IsWalk(pairs, w) && Distinct(w) && p in w && (p, w[0]) in pairs
    ensures IsCycle(pairs, c) && Distinct(c)
  {
    var i :| 0 <= i < |w| && w[i] == p;
    c := w[..i + 1];
    forall k | 0 <= k < i ensures (c[k], c[k + 1]) in pairs {
      assert (w[k], w[k + 1]) in pairs;
    }
  }

  lemma PrependWalk<T>(pairs: Pairs<T>, w: seq<T>, p: T)
    requires IsWalk(pairs, w) && Distinct(w) && p !in w && (p, w[0]) in pairs
    ensures IsWalk(pairs, [p] + w) && Distinct([p] + w)
    ensures Elements([p] + w) == Elements(w) + {p}
  {
    var v := [p] + w;
    PairItems(pairs, p, w[0]);
    forall k | 0 <= k < |v| - 1 ensures (v[k], v[k + 1]) in pairs {
      if k > 0 { assert v[k] == w[k - 1] && v[k + 1] == w[k]; }
    }
  }

  // Following parents inside a finite set where everyone has one must come round.
  lemma {:induction false} BackwardCycle<T(!new)>(pairs: Pairs<T>, stuck: set<T>, w: seq<T>) returns (c: seq<T>)
    requires Stuck(pairs, stuck)
    requires IsWalk(pairs, w) && Distinct(w) && Elements(w) <= stuck
    ensures IsCycle(pairs, c) && Distinct(c)
    decreases |stuck| - |w|
  {
    DistinctBound(w, stuck);
    assert w[0] in Elements(w) && HasParentIn(pairs, stuck, w[0]);
    var p :| p in stuck && (p, w[0]) in pairs;
    PairItems(pairs, p, w[0]);
    if p in w {
      c := ClosingWalk(pairs, w, p);
    } else {
      PrependWalk(pairs, w, p);
      DistinctBound([p] + w, stuck);
      c := BackwardCycle(pairs, stuck, [p] + w);
    }
  }

  // A nonempty set in which every item has a parent contains a cycle; none of its items has a depth.
  lemma StuckMeansCyclic<T(!new)>(pairs: Pairs<T>, stuck: set<T>)
    requires stuck != {} && Stuck(pairs, stuck)
    ensures Cyclic(pairs)
  {
    var x :| x in stuck;
    assert Elements([x]) == {x};
    var c := BackwardCycle(pairs, stuck, [x]);
  }

  lemma {:induction false} StuckHasWalk<T(!new)>(pairs: Pairs<T>, stuck: set<T>, x: T, n: nat)
    requires Stuck(pairs, stuck) && x in stuck
    ensures HasWalk(pairs, x, n)
    decreases n
  {
    if n == 0 {
      HasWalkZero(pairs, x);
    } else {
      assert HasParentIn(pairs, stuck, x);
      var p :| p in stuck && (p, x) in pairs;
      StuckHasWalk(pairs, stuck, p, n - 1);
      HasWalkStep(pairs, p, x, n - 1);
    }
  }

  // A walk of more steps than there are items comes back to one of them.
  lemma AcyclicHasDepth<T(!new)>(pairs: Pairs<T>, x: T)
    requires !Cyclic(pairs) && x in Items(pairs)
    ensures HasDepth(pairs, x)
  {
    var n := |Items(pairs)|;
    if HasWalk(pairs, x, n) {
      var w :| IsWalk(pairs, w) && |w| == n + 1 && w[n] == x;
      forall v | v in w ensures v in Items(pairs) {
        var i :| 0 <= i < |w| && w[i] == v;
        WalkEndsInItem(pairs, w[..i + 1]);
      }
      if Distinct(w) {
        DistinctBound(w, Items(pairs));
      } else {
        var i, j :| 0 <= i < j < |w| && w[i] == w[j];
        var c := w[i..j];
        assert (w[j - 1], w[j]) in pairs;
        assert IsCycle(pairs, c);
      }
    }
    var k := DepthExists(pairs, x, n);
  }

  // ---------- Counting ----------

  // The children of p in the order of the pairs, with repetitions.
  function Successors<T(==)>(pairs: Pairs<T>, p: T): seq<T> {
    if pairs == [] then []
    else
      var last := pairs[|pairs| - 1];
      Successors(pairs[..|pairs| - 1], p) + if last.0 == p then [last.1] else []
  }

  // The children of p are the second halves of the pairs that start with p, in order; at lists where these
  // pairs stand.
  lemma {:induction false} SuccessorsInOrder<T>(pairs: Pairs<T>, p: T) returns (at: seq<nat>)
    ensures Ascending(at) && forall i: nat :: i in at <==> i < |pairs| && pairs[i].0 == p
    ensures |Successors(pairs, p)| == |at|
    ensures forall k :: 0 <= k < |at| ==> at[k] < |pairs| && pairs[at[k]] == (p, Successors(pairs, p)[k])
  {
    if pairs == [] {
      return [];
    }
    var n := |pairs| - 1;
    at := SuccessorsInOrder(pairs[..n], p);
    forall k | 0 <= k < |at| ensures at[k] < n && pairs[at[k]] == (p, Successors(pairs[..n], p)[k]) {
      assert pairs[..n][at[k]] == pairs[at[k]];
    }
    if pairs[n].0 == p {
      AscendingAppend(at, n);
      at := at + [n];
    }
  }

  // How many pairs still hold x back when the items of done have been accounted for.
  ghost function Pending<T>(pairs: Pairs<T>, done: set<T>, x: T): nat {
    if pairs == [] then 0
    else
      var last := pairs[|pairs| - 1];
      Pending(pairs[..|pairs| - 1], done, x) + if last.1 == x && last.0 !in done then 1 else 0
  }

  lemma {:induction false} SuccessorIsPair<T>(pairs: Pairs<T>, p: T, c: T)
    ensures c in Successors(pairs, p) <==> (p, c) in pairs
  {
    if pairs != [] {
      var n := |pairs| - 1;
      SuccessorIsPair(pairs[..n], p, c);
      assert pairs == pairs[..n] + [pairs[n]];
    }
  }

  lemma {:induction false} PendingZero<T(!new)>(pairs: Pairs<T>, done: set<T>, x: T)
    ensures Pending(pairs, done, x) == 0 <==> forall p :: (p, x) in pairs ==> p in done
  {
    if pairs != [] {
      var n := |pairs| - 1;
      PendingZero(pairs[..n], done, x);
      assert pairs == pairs[..n] + [pairs[n]];
      if Pending(pairs, done, x) != 0 && pairs[n].1 == x && pairs[n].0 !in done {
        assert (pairs[n].0, x) in pairs;
      }
    }
  }

  // Accounting for p releases its children, once per pair.
  lemma {:induction false} PendingStep<T>(pairs: Pairs<T>, done: set<T>, p: T, x: T)
    requires p !in done
    ensures Pending(pairs, done, x) == Pending(pairs, done + {p}, x) + multiset(Successors(pairs, p))[x]
  {
    if pairs != [] {
      var n := |pairs| - 1;
      PendingStep(pairs[..n], done, p, x);
    }
  }
}
