// What the details of a CycleError are good for: find_cycles applied to them
// (bindings/python/topsort.py, lines 104-112 and 235-385).

module CycleReport {
  import opened Sequences
  import opened Dependencies
  import opened Topsort
  import Cycles

  ghost predicate SimplePairCycle<T>(pairs: Pairs<T>, c: seq<T>) {
    IsCycle(pairs, c) && Distinct(c)
  }

  lemma CycleItemsStay<T(!new)>(pairs: Pairs<T>, c: seq<T>, x: T)
    requires IsCycle(pairs, c) && x in c
    ensures !HasDepth(pairs, x)
  {
    var i :| 0 <= i < |c| && c[i] == x;
    if HasDepth(pairs, x) {
      var k: nat :| AtDepth(pairs, x, k);
      CycleHasLongWalks(pairs, c, i, k + 1);
    }
  }

  // The children dict carried by a CycleError has lost no cycle and gained none: its simple cycles
  // are exactly those of the pairs.
  lemma RemainingChildrenHaveAllCycles<T(!new)>(pairs: Pairs<T>, done: set<T>, children: map<T, seq<T>>, c: seq<T>)
    requires Lists(pairs, done, children) && forall x :: x in done ==> HasDepth(pairs, x)
    ensures Cycles.SimpleCycle(children, c) <==> SimplePairCycle(pairs, c)
  {
    forall a, b ensures Cycles.Edge(children, a, b) <==> a !in done && (a, b) in pairs {
      SuccessorIsPair(pairs, a, b);
    }
    if Cycles.SimpleCycle(children, c) {
      PairItems(pairs, c[|c| - 1], c[0]);
      forall i | 0 <= i < |c| - 1 ensures (c[i], c[i + 1]) in pairs {
        assert Cycles.Edge(children, c[i], c[i + 1]);
      }
      assert IsCycle(pairs, c);
    }
    if SimplePairCycle(pairs, c) {
      forall i | 0 <= i < |c| ensures c[i] !in done {
        CycleItemsStay(pairs, c, c[i]);
      }
    }
  }

  // A cycle can be cut down to a simple one, so the report is never empty.
  lemma CyclicHasSimpleCycle<T(!new)>(pairs: Pairs<T>)
    requires Cyclic(pairs)
    ensures exists c :: SimplePairCycle(pairs, c)
  {
    var c :| IsCycle(pairs, c);
    var stuck := Elements(c);
    forall x | x in stuck ensures x in Items(pairs) && HasParentIn(pairs, stuck, x) {
      var i :| 0 <= i < |c| && c[i] == x;
      var j := if i == 0 then |c| - 1 else i - 1;
      assert (c[j], c[i]) in pairs && c[j] in stuck;
      PairItems(pairs, c[j], c[i]);
    }
    assert Elements([c[0]]) == {c[0]};
    var s := BackwardCycle(pairs, stuck, [c[0]]);
    assert SimplePairCycle(pairs, s);
  }

  // Sorting fails exactly when enumerating the cycles of the reported children yields something.
  lemma ErrorIffCyclesFound<T(!new)>(pairs: Pairs<T>, done: set<T>, children: map<T, seq<T>>, cycles: seq<seq<T>>)
    requires Lists(pairs, done, children) && forall x :: x in done ==> HasDepth(pairs, x)
    requires forall i :: 0 <= i < |cycles| ==> Cycles.SimpleCycle(children, cycles[i])
    requires forall c :: Cycles.SimpleCycle(children, c) ==> Cycles.Found(cycles, c)
    ensures cycles != [] <==> Cyclic(pairs)
  {
    if cycles != [] {
      RemainingChildrenHaveAllCycles(pairs, done, children, cycles[0]);
    }
    if Cyclic(pairs) {
      CyclicHasSimpleCycle(pairs);
      var c :| SimplePairCycle(pairs, c);
      RemainingChildrenHaveAllCycles(pairs, done, children, c);
      assert Cycles.Found(cycles, c);
    }
  }

  // What is left over when the sort fails need not have children: here "b" is left over, because it waits
  // for "a", which waits for itself.
  lemma LeftoverWithoutChildren()
    ensures var pairs := [("a", "a"), ("a", "b")];
            Cyclic(pairs) && "b" in Items(pairs) && !HasDepth(pairs, "b") && Successors(pairs, "b") == []
  {
    var pairs := [("a", "a"), ("a", "b")];
    assert pairs[0] == ("a", "a") && pairs[1] == ("a", "b");
    PairItems(pairs, "a", "a");
    PairItems(pairs, "a", "b");
    var c := ["a"];
    assert IsCycle(pairs, c);
    if HasDepth(pairs, "b") {
      var k: nat :| AtDepth(pairs, "b", k);
      CycleHasLongWalks(pairs, c, 0, k);
      HasWalkStep(pairs, "a", "b", k);
    }
    forall x ensures x !in Successors(pairs, "b") { SuccessorIsPair(pairs, "b", x); }
  }
}
