// Modules whose section names collide (bindings/python/ns3modulescan.py, lines 284-293): one set of
// modules for which the order of precedences is always lost, and one for which it never is.

module Collisions {
  import opened Sequences
  import opened Dependencies
  import opened Topsort
  import opened SortOrder
  import opened ModuleScan

  // ---------- A collision that loses the order ----------

  // "a_x" needs "b", "b" needs "a-x".
  const COLLIDING: map<string, ModuleInfo> :=
    map["a-x" := ModuleInfo([], []), "b" := ModuleInfo(["a-x"], []), "a_x" := ModuleInfo(["b"], [])]

  lemma SharedSection()
    ensures Section("a-x") == Section("a_x") && Section("b") != Section("a_x")
  {
    assert Underscored("a-x") == Underscored("a_x");
    assert |Section("b")| < |Section("a_x")|;
  }

  function Rank(name: string): nat {
    if name == "a-x" then 0 else if name == "b" then 1 else 2
  }

  lemma {:induction false} RankClimbs(c: seq<string>, n: nat)
    requires n < |c| && forall i :: 0 <= i < |c| - 1 ==> DependsOn(COLLIDING, c[i + 1], c[i])
    ensures Rank(c[0]) <= Rank(c[n])
  {
    if n > 0 {
      RankClimbs(c, n - 1);
      assert DependsOn(COLLIDING, c[n - 1 + 1], c[n - 1]);
    }
  }

  lemma CollidingIsFine()
    ensures !CyclicModules(COLLIDING) && !UnknownDependency(COLLIDING)
  {
    assert forall m, dep :: DependsOn(COLLIDING, m, dep) ==> Rank(dep) < Rank(m);
    forall c ensures !ModuleCycle(COLLIDING, c) {
      if ModuleCycle(COLLIDING, c) { RankClimbs(c, |c| - 1); }
    }
  }

  lemma CollidingOrder(sorted: seq<string>)
    requires ModuleOrder(COLLIDING, sorted)
    ensures "a-x" in sorted && "b" in sorted && "a_x" in sorted
    ensures forall x :: x in sorted ==> x in COLLIDING
    ensures forall j :: 0 <= j < |sorted| && sorted[j] == "a_x" ==> "b" in sorted[..j]
  {
    assert DependsOn(COLLIDING, "b", "a-x") && DependsOn(COLLIDING, "a_x", "b");
    assert Mentioned(COLLIDING, "a-x") && Mentioned(COLLIDING, "b") && Mentioned(COLLIDING, "a_x");
    forall x | x in sorted ensures x in COLLIDING {
      assert Mentioned(COLLIDING, x);
    }
  }

  lemma SharedSectionLast(sorted: seq<string>, precedences: map<string, nat>)
    requires Distinct(sorted) && Elements(sorted) <= COLLIDING.Keys
    requires "a-x" in sorted && "a_x" in sorted && "b" in sorted
    requires forall j :: 0 <= j < |sorted| && sorted[j] == "a_x" ==> "b" in sorted[..j]
    requires LastPositions(sorted, precedences)
    ensures Section("b") in precedences && Section("a-x") in precedences
    ensures precedences[Section("a-x")] > precedences[Section("b")]
  {
    SharedSection();
    var k := Pos(sorted, "a_x");
    var j := Pos(sorted, "b");
    assert j < k by {
      var i :| 0 <= i < k && sorted[..k][i] == "b";
    }
    var m := precedences[Section("b")];
    assert sorted[m] in Elements(sorted);
    assert sorted[m] == "b";
  }

  // Here the order is lost whatever topsort answers: the section shared by "a-x" and "a_x" comes after
  // that of "b", although "b" depends on "a-x".
  lemma CollisionLosesOrder(names: seq<string>, r: ScanResult)
    requires Elements(names) == COLLIDING.Keys && ScanOutcome(names, COLLIDING, r)
    ensures r.Scanned?
    ensures DependsOn(COLLIDING, "b", "a-x")
    ensures Section("b") in r.precedences && Section("a-x") in r.precedences
    ensures r.precedences[Section("a-x")] > r.precedences[Section("b")]
  {
    CollidingIsFine();
    var sorted :| SortAnswer(ModuleGraph(names, COLLIDING), sorted) && ModuleOrder(COLLIDING, sorted)
                  && SectionsNumbered(sorted, COLLIDING, r);
    CollidingOrder(sorted);
    SharedSectionLast(sorted, r.precedences);
  }

  // ---------- A collision that does no harm ----------

  // "a_x" and "m" need "p", and "m" also needs "a-x": at the same depth, but "m" comes after "a_x" in
  // the list of what needs "p".
  const TIED: map<string, ModuleInfo> :=
    map["a-x" := ModuleInfo([], []), "a_x" := ModuleInfo(["p"], []), "m" := ModuleInfo(["a-x", "p"], []),
        "p" := ModuleInfo([], [])]

  const TIED_NAMES: seq<string> := ["a-x", "a_x", "m", "p"]

  const TIED_GRAPH: Pairs<string> := [("p", "a_x"), ("a-x", "m"), ("p", "m")]

  lemma TiedGraph()
    ensures Elements(TIED_NAMES) == TIED.Keys && ModuleGraph(TIED_NAMES, TIED) == TIED_GRAPH
  {
    var n := TIED_NAMES;
    assert n[..3] == ["a-x", "a_x", "m"] && n[..3][..2] == ["a-x", "a_x"] && n[..3][..2][..1] == ["a-x"];
    assert ModuleGraph(["a-x"], TIED) == [] by { assert ["a-x"][..0] == []; }
    assert ModuleGraph(["a-x", "a_x"], TIED) == [("p", "a_x")];
    assert ModuleGraph(["a-x", "a_x", "m"], TIED) == TIED_GRAPH;
  }

  lemma TiedSuccessors()
    ensures Successors(TIED_GRAPH, "p") == ["a_x", "m"] && Successors(TIED_GRAPH, "a-x") == ["m"]
  {
    var g := TIED_GRAPH;
    assert g[..2] == [("p", "a_x"), ("a-x", "m")] && g[..2][..1] == [("p", "a_x")] && g[..1][..0] == [];
    assert Successors([("p", "a_x")], "p") == ["a_x"] && Successors([("p", "a_x")], "a-x") == [];
  }

  lemma TiedItems()
    ensures forall dep, m :: (dep, m) in TIED_GRAPH <==>
              (dep, m) == ("p", "a_x") || (dep, m) == ("a-x", "m") || (dep, m) == ("p", "m")
    ensures Items(TIED_GRAPH) == {"p", "a-x", "a_x", "m"}
  {
    var g := TIED_GRAPH;
    assert g[0] == ("p", "a_x") && g[1] == ("a-x", "m") && g[2] == ("p", "m");
    PairItems(g, "p", "a_x");
    PairItems(g, "a-x", "m");
  }

  lemma TiedDepths()
    ensures Items(TIED_GRAPH) == {"p", "a-x", "a_x", "m"}
    ensures AtDepth(TIED_GRAPH, "p", 0) && AtDepth(TIED_GRAPH, "a-x", 0)
    ensures AtDepth(TIED_GRAPH, "a_x", 1) && AtDepth(TIED_GRAPH, "m", 1)
  {
    TiedItems();
    DepthFromParents(TIED_GRAPH, "p", 0);
    DepthFromParents(TIED_GRAPH, "a-x", 0);
    DepthFromParents(TIED_GRAPH, "a_x", 1);
    DepthFromParents(TIED_GRAPH, "m", 1);
  }

  lemma FirstLetter(name: string)
    requires name != "" && name[0] != '-'
    ensures |Section(name)| > 11 && Section(name)[11] == name[0]
  {
    assert Section(name)[11] == Underscored(name)[0];
  }

  lemma TiedNames()
    ensures Section("a-x") == Section("a_x")
    ensures Section("p") != Section("m") && Section("p") != Section("a_x") && Section("m") != Section("a_x")
  {
    SharedSection();
    FirstLetter("p");
    FirstLetter("m");
    FirstLetter("a_x");
  }

  lemma TiedClimb(r: string, picks: seq<nat>)
    requires LongestClimb(TIED_GRAPH, r, picks, "a_x")
    ensures r == "p" && picks == [0]
  {
    TiedDepths();
    TiedSuccessors();
    DepthUnique(TIED_GRAPH, "a_x", |picks|, 1);
    assert picks == [picks[0]] && picks[..0] == [];
    TopStep(TIED_GRAPH, r, picks);
  }

  // Every longest climb to "a_x" is overtaken by the one to "m".
  lemma TiedIsOvertaken(r: string, picks: seq<nat>)
    requires LongestClimb(TIED_GRAPH, r, picks, "a_x")
    ensures Overtaken(TIED_GRAPH, "m", r, picks)
  {
    TiedClimb(r, picks);
    TiedDepths();
    TiedSuccessors();
    var more: seq<nat> := [1];
    assert more[..0] == [];
    assert LongestClimb(TIED_GRAPH, r, more, "m");
  }

  lemma TiedKeepsUpOne(dep: string, m: string, x: string)
    requires (dep, m) in TIED_GRAPH && x in Items(TIED_GRAPH) && Section(x) == Section(dep)
    ensures SectionKeepsUp(TIED_GRAPH, m, x)
  {
    var g := TIED_GRAPH;
    TiedDepths();
    TiedNames();
    if x == "a_x" {
      forall r, picks | LongestClimb(g, r, picks, x) ensures Overtaken(g, m, r, picks) {
        TiedIsOvertaken(r, picks);
      }
    } else {
      assert x == dep && Shallower(g, x, m);
      PairItems(g, dep, m);
    }
  }

  lemma TiedIsNotBelow(y: string)
    requires y in Items(TIED_GRAPH) && Section(y) == Section("m")
    ensures !Shallower(TIED_GRAPH, "a_x", y)
  {
    TiedDepths();
    TiedNames();
    forall j: nat, k: nat | AtDepth(TIED_GRAPH, "a_x", j) && AtDepth(TIED_GRAPH, "m", k) ensures j == k {
      DepthUnique(TIED_GRAPH, "a_x", j, 1);
      DepthUnique(TIED_GRAPH, "m", k, 1);
    }
  }

  // Deepening is not necessary: here sections keep up without it.
  lemma TiedKeepsUp()
    ensures !SectionsDeepen(TIED_GRAPH) && SectionsKeepUp(TIED_GRAPH)
  {
    var g := TIED_GRAPH;
    forall dep, m, x | (dep, m) in g && x in Items(g) && Section(x) == Section(dep) ensures SectionKeepsUp(g, m, x) {
      TiedKeepsUpOne(dep, m, x);
    }
    TiedDepths();
    TiedNames();
    assert g[1] == ("a-x", "m");
    forall y | y in Items(g) && Section(y) == Section("m") ensures !Shallower(g, "a_x", y) { TiedIsNotBelow(y); }
    assert !SectionReachesBelow(g, "m", "a_x");
  }

  lemma TiedIsAcyclic()
    ensures !Cyclic(TIED_GRAPH)
  {
    TiedDepths();
    DepthsExcludeCycles(TIED_GRAPH);
  }

  // The scan of these modules succeeds, and every dependency has a smaller precedence than its dependent,
  // whatever topsort answers.
  lemma TiedScanIsOrdered(r: ScanResult)
    requires Elements(TIED_NAMES) == TIED.Keys && ScanOutcome(TIED_NAMES, TIED, r)
    ensures r.Scanned? && PrecedencesOrdered(TIED, r.precedences)
    ensures !SectionsDeepen(ModuleGraph(TIED_NAMES, TIED))
  {
    TiedGraph();
    TiedItems();
    TiedKeepsUp();
    TiedIsAcyclic();
    GraphIsOfModules(TIED_NAMES, TIED);
    GraphMeaning(TIED, TIED_GRAPH);
    assert Items(TIED_GRAPH) <= TIED.Keys;
    var sorted :| SortAnswer(TIED_GRAPH, sorted) && ModuleOrder(TIED, sorted) && SectionsNumbered(sorted, TIED, r);
    KeepingUpOrders(TIED, TIED_GRAPH, sorted, r.precedences);
  }
}
