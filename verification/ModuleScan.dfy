// The client of topsort: section precedences in bindings/python/ns3modulescan.py (lines 262-295).

module ModuleScan {
  import opened Sequences
  import opened Dependencies
  import opened Topsort
  import opened SortOrder

  datatype ModuleInfo = ModuleInfo(deps: seq<string>, headers: seq<string>)

  datatype ScanResult =
    | Scanned(sections: seq<string>, headersMap: map<string, string>, precedences: map<string, nat>)
    | ScanCycleError
    | ScanKeyError

  const MAIN := "__main__"

  function Underscored(name: string): (r: string)
    ensures |r| == |name|
    ensures forall i :: 0 <= i < |name| ==> r[i] == if name[i] == '-' then '_' else name[i]
  {
    seq(|name|, i requires 0 <= i < |name| => if name[i] == '-' then '_' else name[i])
  }

  // "ns3_module_%s" % ns3_module.replace('-', '_')
  function Section(name: string): string {
    "ns3_module_" + Underscored(name)
  }

  // Two names share a section exactly when they differ at most in - and _.
  lemma SectionsCollide(a: string, b: string)
    ensures Section(a) == Section(b) <==>
              |a| == |b| && forall i :: 0 <= i < |a| ==> a[i] == b[i] || (a[i] in "-_" && b[i] in "-_")
  {
    assert Section(a)[|"ns3_module_"|..] == Underscored(a) && Section(b)[|"ns3_module_"|..] == Underscored(b);
    if |a| == |b| && forall i :: 0 <= i < |a| ==> a[i] == b[i] || (a[i] in "-_" && b[i] in "-_") {
      forall i | 0 <= i < |a| ensures Underscored(a)[i] == Underscored(b)[i] { }
    }
    if Section(a) == Section(b) {
      forall i | 0 <= i < |a| ensures a[i] == b[i] || (a[i] in "-_" && b[i] in "-_") {
        assert Underscored(a)[i] == Underscored(b)[i];
      }
    }
  }

  lemma SectionExample()
    ensures Section("point-to-point") == "ns3_module_point_to_point"
  {
    assert Underscored("point-to-point") == "point_to_point";
  }

  // (dep, m) is a pair of the graph.
  ghost predicate DependsOn(modules: map<string, ModuleInfo>, m: string, dep: string) {
    m in modules && dep in modules[m].deps
  }

  ghost predicate GraphOf(modules: map<string, ModuleInfo>, graph: Pairs<string>) {
    forall dep, m :: (dep, m) in graph <==> DependsOn(modules, m, dep)
  }

  // Modules each of which depends on the one before it, and the first one on the last.
  ghost predicate ModuleCycle(modules: map<string, ModuleInfo>, c: seq<string>) {
    && c != []
    && DependsOn(modules, c[0], c[|c| - 1])
    && forall i :: 0 <= i < |c| - 1 ==> DependsOn(modules, c[i + 1], c[i])
  }

  ghost predicate CyclicModules(modules: map<string, ModuleInfo>) {
    exists c :: ModuleCycle(modules, c)
  }

  // The module has a dependency or is one.
  ghost predicate Mentioned(modules: map<string, ModuleInfo>, x: string) {
    (exists dep :: DependsOn(modules, x, dep)) || exists m :: DependsOn(modules, m, x)
  }

  // Every mentioned module once, each after what it depends on.
  ghost predicate ModuleOrder(modules: map<string, ModuleInfo>, sorted: seq<string>) {
    && Distinct(sorted)
    && (forall x :: x in sorted <==> Mentioned(modules, x))
    && forall j, dep :: 0 <= j < |sorted| && DependsOn(modules, sorted[j], dep) ==> dep in sorted[..j]
  }

  ghost predicate UnknownDependency(modules: map<string, ModuleInfo>) {
    exists m, dep :: DependsOn(modules, m, dep) && dep !in modules
  }

  // No two of the names share a section name.
  ghost predicate DistinctSections(items: set<string>) {
    forall a, b :: a in items && b in items && Section(a) == Section(b) ==> a == b
  }

  // section_precendences after the loop: a section name maps to the last position that holds it.
  ghost predicate LastPositions(sorted: seq<string>, precedences: map<string, nat>) {
    && (forall i :: 0 <= i < |sorted| ==> Section(sorted[i]) in precedences && precedences[Section(sorted[i])] >= i)
    && (forall s :: s in precedences ==> precedences[s] < |sorted| && Section(sorted[precedences[s]]) == s)
  }

  // The last module of the list that lists the header.
  ghost predicate LastOwner(sorted: seq<string>, modules: map<string, ModuleInfo>, h: string, i: nat)
    requires Elements(sorted) <= modules.Keys
  {
    && i < |sorted|
    && (assert sorted[i] in Elements(sorted); h in modules[sorted[i]].headers)
    && forall j :: i < j < |sorted| ==> (assert sorted[j] in Elements(sorted); h !in modules[sorted[j]].headers)
  }

  // headers_map after the loop: a header belongs to the section of the last module that lists it.
  ghost predicate HeadersOwned(sorted: seq<string>, modules: map<string, ModuleInfo>, headersMap: map<string, string>)
    requires Elements(sorted) <= modules.Keys
  {
    && (forall h, i: nat :: LastOwner(sorted, modules, h, i) ==> h in headersMap && headersMap[h] == Section(sorted[i]))
    && (forall h :: h in headersMap ==> exists i: nat :: LastOwner(sorted, modules, h, i))
  }

  // The pairs in the order in which the loops append them.
  function DependencyPairs(deps: seq<string>, m: string): Pairs<string> {
    seq(|deps|, i requires 0 <= i < |deps| => (deps[i], m))
  }

  function ModuleGraph(names: seq<string>, modules: map<string, ModuleInfo>): Pairs<string>
    requires Elements(names) <= modules.Keys
  {
    if names == [] then []
    else
      var n := |names| - 1;
      assert names[n] in Elements(names) && Elements(names[..n]) <= Elements(names);
      ModuleGraph(names[..n], modules) + DependencyPairs(modules[names[n]].deps, names[n])
  }

  lemma {:induction false} GraphPairs(names: seq<string>, modules: map<string, ModuleInfo>, dep: string, m: string)
    requires Elements(names) <= modules.Keys
    ensures (dep, m) in ModuleGraph(names, modules) <==> m in names && DependsOn(modules, m, dep)
  {
    if names != [] {
      var n := |names| - 1;
      assert names == names[..n] + [names[n]];
      assert names[n] in Elements(names) && Elements(names[..n]) <= Elements(names);
      GraphPairs(names[..n], modules, dep, m);
      var deps := modules[names[n]].deps;
      assert (dep, m) in DependencyPairs(deps, names[n]) <==> m == names[n] && dep in deps by {
        if m == names[n] && dep in deps {
          var i :| 0 <= i < |deps| && deps[i] == dep;
          assert DependencyPairs(deps, names[n])[i] == (dep, m);
        }
      }
    }
  }

  lemma GraphIsOfModules(names: seq<string>, modules: map<string, ModuleInfo>)
    requires Elements(names) == modules.Keys
    ensures GraphOf(modules, ModuleGraph(names, modules))
  {
    forall dep, m ensures (dep, m) in ModuleGraph(names, modules) <==> DependsOn(modules, m, dep) {
      GraphPairs(names, modules, dep, m);
      assert m in names <==> m in Elements(names);
    }
  }

  method BuildModuleGraph(names: seq<string>, modules: map<string, ModuleInfo>) returns (graph: Pairs<string>)
    requires Elements(names) == modules.Keys
    ensures graph == ModuleGraph(names, modules) && GraphOf(modules, graph)
  {
    graph := [];
    for i := 0 to |names|
      invariant Elements(names[..i]) <= modules.Keys && graph == ModuleGraph(names[..i], modules)
    {
      assert names[i] in Elements(names);
      assert names[..i + 1][..i] == names[..i];
      assert Elements(names[..i + 1]) <= Elements(names);
      var deps := modules[names[i]].deps;
      ghost var before := graph;
      for j := 0 to |deps|
        invariant graph == before + DependencyPairs(deps[..j], names[i])
      {
        graph := graph + [(deps[j], names[i])];
        assert DependencyPairs(deps[..j + 1], names[i]) == DependencyPairs(deps[..j], names[i]) + [(deps[j], names[i])];
      }
      assert deps[..|deps|] == deps;
    }
    assert names[..|names|] == names;
    GraphIsOfModules(names, modules);
  }

  function Sections(names: seq<string>): seq<string> {
    seq(|names|, i requires 0 <= i < |names| => Section(names[i]))
  }

  ghost predicate SectionsNumbered(sorted: seq<string>, modules: map<string, ModuleInfo>, r: ScanResult)
    requires r.Scanned?
  {
    && r.sections == [MAIN] + Sections(sorted)
    && LastPositions(sorted, r.precedences)
    && Elements(sorted) <= modules.Keys
    && HeadersOwned(sorted, modules, r.headersMap)
  }

  // One of the orders topsort may answer with, numbered.
  ghost predicate SectionsFollow(modules: map<string, ModuleInfo>, graph: Pairs<string>, r: ScanResult)
    requires r.Scanned?
  {
    exists sorted :: SortAnswer(graph, sorted) && ModuleOrder(modules, sorted) && SectionsNumbered(sorted, modules, r)
  }

  // Every dependency has a smaller section precedence than its dependent.
  ghost predicate PrecedencesOrdered(modules: map<string, ModuleInfo>, precedences: map<string, nat>) {
    forall dep, m :: DependsOn(modules, m, dep) ==>
      && Section(dep) in precedences && Section(m) in precedences
      && precedences[Section(dep)] < precedences[Section(m)]
  }

  // for header in ns3_modules[ns3_module][1]
  method AddHeaders(headers: seq<string>, section: string, headersMap0: map<string, string>)
    returns (headersMap: map<string, string>)
    ensures forall h :: h in headersMap <==> h in headersMap0 || h in headers
    ensures forall h :: h in headersMap ==> headersMap[h] == if h in headers then section else headersMap0[h]
  {
    headersMap := headersMap0;
    for i := 0 to |headers|
      invariant forall h :: h in headersMap <==> h in headersMap0 || h in headers[..i]
      invariant forall h :: h in headersMap ==> headersMap[h] == if h in headers[..i] then section else headersMap0[h]
    {
      headersMap := headersMap[headers[i] := section];
      assert headers[..i + 1] == headers[..i] + [headers[i]];
    }
    assert headers[..|headers|] == headers;
  }

  // The new module owns what it lists; everything else keeps its owner.
  lemma NextOwner(sorted: seq<string>, modules: map<string, ModuleInfo>, name: string, h: string, i: nat)
    requires Elements(sorted) <= modules.Keys && name in modules
    ensures Elements(sorted + [name]) <= modules.Keys
    ensures LastOwner(sorted + [name], modules, h, i) <==>
              if h in modules[name].headers then i == |sorted| else LastOwner(sorted, modules, h, i)
  {
    var more := sorted + [name];
    assert Elements(more) == Elements(sorted) + {name};
    assert more[|sorted|] == name;
    assert forall j :: 0 <= j < |sorted| ==> more[j] == sorted[j];
  }

  lemma OwnersStep(sorted: seq<string>, modules: map<string, ModuleInfo>, name: string,
                   before: map<string, string>, after: map<string, string>)
    requires Elements(sorted) <= modules.Keys && HeadersOwned(sorted, modules, before) && name in modules
    requires forall h :: h in after <==> h in before || h in modules[name].headers
    requires forall h :: h in after ==> after[h] == if h in modules[name].headers then Section(name) else before[h]
    ensures Elements(sorted + [name]) <= modules.Keys && HeadersOwned(sorted + [name], modules, after)
  {
    var more := sorted + [name];
    assert Elements(more) == Elements(sorted) + {name};
    forall h, i: nat | LastOwner(more, modules, h, i) ensures h in after && after[h] == Section(more[i]) {
      NextOwner(sorted, modules, name, h, i);
    }
    forall h | h in after ensures exists i: nat :: LastOwner(more, modules, h, i) {
      var i := |sorted|;
      if h !in modules[name].headers {
        i :| i >= 0 && LastOwner(sorted, modules, h, i);
      }
      NextOwner(sorted, modules, name, h, i);
    }
  }

  // The loop over enumerate(sorted_ns3_modules); a dependency that is not itself a module has no
  // headers to look up.
  method NumberSections(sorted: seq<string>, modules: map<string, ModuleInfo>) returns (r: ScanResult)
    ensures !r.ScanCycleError?
    ensures r.ScanKeyError? <==> !(Elements(sorted) <= modules.Keys)
    ensures r.Scanned? ==> SectionsNumbered(sorted, modules, r)
  {
    var sections := [MAIN];
    var headersMap: map<string, string> := map[];
    var precedences: map<string, nat> := map[];
    assert sorted[..0] == [] && Elements(sorted[..0]) == {};
    for prec := 0 to |sorted|
      invariant sections == [MAIN] + Sections(sorted[..prec])
      invariant LastPositions(sorted[..prec], precedences)
      invariant Elements(sorted[..prec]) <= modules.Keys && HeadersOwned(sorted[..prec], modules, headersMap)
    {
      var name := sorted[prec];
      var sectionName := Section(name);
      assert sorted[..prec + 1] == sorted[..prec] + [name];
      assert Sections(sorted[..prec + 1]) == Sections(sorted[..prec]) + [sectionName];
      sections := sections + [sectionName];
      if name !in modules {
        assert name in Elements(sorted);
        return ScanKeyError;
      }
      ghost var before := headersMap;
      headersMap := AddHeaders(modules[name].headers, sectionName, headersMap);
      OwnersStep(sorted[..prec], modules, name, before, headersMap);
      precedences := precedences[sectionName := prec];
    }
    assert sorted[..|sorted|] == sorted;
    r := Scanned(sections, headersMap, precedences);
  }

  lemma ItemIsMentioned(modules: map<string, ModuleInfo>, graph: Pairs<string>, x: string)
    requires GraphOf(modules, graph)
    ensures x in Items(graph) <==> Mentioned(modules, x)
  {
    if x in Items(graph) {
      var i :| 0 <= i < |graph| && (graph[i].0 == x || graph[i].1 == x);
      assert (graph[i].0, graph[i].1) in graph;
    }
    forall dep | DependsOn(modules, x, dep) ensures x in Items(graph) { PairItems(graph, dep, x); }
    forall m | DependsOn(modules, m, x) ensures x in Items(graph) { PairItems(graph, x, m); }
  }

  // What the pairs say is what the modules say.
  lemma GraphMeaning(modules: map<string, ModuleInfo>, graph: Pairs<string>)
    requires GraphOf(modules, graph)
    ensures Cyclic(graph) <==> CyclicModules(modules)
    ensures forall x :: x in Items(graph) <==> Mentioned(modules, x)
    ensures Items(graph) <= modules.Keys <==> !UnknownDependency(modules)
  {
    forall c ensures IsCycle(graph, c) <==> ModuleCycle(modules, c) {
      if ModuleCycle(modules, c) { PairItems(graph, c[|c| - 1], c[0]); }
    }
    forall x ensures x in Items(graph) <==> Mentioned(modules, x) {
      ItemIsMentioned(modules, graph, x);
    }
    forall m, dep | DependsOn(modules, m, dep) ensures dep in Items(graph) {
      PairItems(graph, dep, m);
    }
  }

  lemma OrderMeaning(modules: map<string, ModuleInfo>, graph: Pairs<string>, sorted: seq<string>)
    requires GraphOf(modules, graph) && SortAnswer(graph, sorted)
    ensures ModuleOrder(modules, sorted)
  {
    forall x ensures x in sorted <==> Mentioned(modules, x) {
      assert x in sorted <==> x in Elements(sorted);
      ItemIsMentioned(modules, graph, x);
    }
  }

  // Every module keeps its own position exactly when section names do not collide.
  lemma OwnPositions(sorted: seq<string>, precedences: map<string, nat>)
    requires Distinct(sorted) && LastPositions(sorted, precedences)
    ensures DistinctSections(Elements(sorted)) <==>
              forall i :: 0 <= i < |sorted| ==> precedences[Section(sorted[i])] == i
  {
    if DistinctSections(Elements(sorted)) {
      forall i | 0 <= i < |sorted| ensures precedences[Section(sorted[i])] == i {
        var j := precedences[Section(sorted[i])];
        assert sorted[i] in Elements(sorted) && sorted[j] in Elements(sorted);
      }
    } else {
      var a, b :| a in Elements(sorted) && b in Elements(sorted) && Section(a) == Section(b) && a != b;
      var i :| 0 <= i < |sorted| && sorted[i] == a;
      var j :| 0 <= j < |sorted| && sorted[j] == b;
    }
  }

  // ---------- When precedences follow dependencies ----------

  ghost predicate Shallower(graph: Pairs<string>, x: string, y: string) {
    exists j: nat, k: nat :: j < k && AtDepth(graph, x, j) && AtDepth(graph, y, k)
  }

  // Something that shares the section of m is deeper than x.
  ghost predicate SectionReachesBelow(graph: Pairs<string>, m: string, x: string) {
    exists y :: y in Items(graph) && Section(y) == Section(m) && Shallower(graph, x, y)
  }

  // A longest climb to x is overtaken if one from the same root to something as deep that shares the
  // section of m takes a later child where they part.
  ghost predicate Overtaken(graph: Pairs<string>, m: string, r: string, picks: seq<nat>) {
    exists y, more ::
      |more| == |picks| && Section(y) == Section(m) && LongestClimb(graph, r, more, y) && PicksLess(picks, more)
  }

  ghost predicate SectionKeepsUp(graph: Pairs<string>, m: string, x: string) {
    || SectionReachesBelow(graph, m, x)
    || forall r, picks :: LongestClimb(graph, r, picks, x) ==> Overtaken(graph, m, r, picks)
  }

  // Whatever shares the section of a dependency is outdone by something that shares the section of the
  // dependent: by a deeper module, or on every longest climb.
  ghost predicate SectionsKeepUp(graph: Pairs<string>) {
    forall dep, m, x :: (dep, m) in graph && x in Items(graph) && Section(x) == Section(dep) ==>
      SectionKeepsUp(graph, m, x)
  }

  // The simpler condition: always by a deeper module.
  ghost predicate SectionsDeepen(graph: Pairs<string>) {
    forall dep, m, x :: (dep, m) in graph && x in Items(graph) && Section(x) == Section(dep) ==>
      SectionReachesBelow(graph, m, x)
  }

  // Without collisions sections deepen.
  lemma NoCollisionDeepens(graph: Pairs<string>)
    requires !Cyclic(graph) && DistinctSections(Items(graph))
    ensures SectionsDeepen(graph)
  {
    forall dep, m, x | (dep, m) in graph && x in Items(graph) && Section(x) == Section(dep)
      ensures SectionReachesBelow(graph, m, x)
    {
      PairItems(graph, dep, m);
      AcyclicHasDepth(graph, dep);
      AcyclicHasDepth(graph, m);
      var j: nat :| AtDepth(graph, dep, j);
      var k: nat :| AtDepth(graph, m, k);
      ParentIsShallower(graph, dep, m, j, k);
      assert Shallower(graph, x, m);
    }
  }

  lemma DeeperIsLater(graph: Pairs<string>, sorted: seq<string>, x: string, y: string)
    requires SortAnswer(graph, sorted) && x in Items(graph) && y in Items(graph) && Shallower(graph, x, y)
    ensures Pos(sorted, x) < Pos(sorted, y)
  {
    var j: nat, k: nat :| j < k && AtDepth(graph, x, j) && AtDepth(graph, y, k);
    var a, b := Pos(sorted, x), Pos(sorted, y);
    assert sorted[a] == x && sorted[b] == y;
    if a == b { DepthUnique(graph, x, j, k); }
  }

  // The last module of the section of m comes after x, if the section keeps up.
  lemma KeepingUpIsLater(graph: Pairs<string>, sorted: seq<string>, m: string, x: string) returns (y: string)
    requires !Cyclic(graph) && SortAnswer(graph, sorted) && x in Items(graph) && SectionKeepsUp(graph, m, x)
    ensures y in Items(graph) && Section(y) == Section(m) && Pos(sorted, x) < Pos(sorted, y)
  {
    if SectionReachesBelow(graph, m, x) {
      y :| y in Items(graph) && Section(y) == Section(m) && Shallower(graph, x, y);
      DeeperIsLater(graph, sorted, x, y);
    } else {
      var r, picks := LastClimbExists(graph, sorted, x);
      assert Overtaken(graph, m, r, picks);
      var more;
      y, more :| |more| == |picks| && Section(y) == Section(m) && LongestClimb(graph, r, more, y)
                 && PicksLess(picks, more);
      ClimbDecides(graph, sorted, r, picks, r, more);
    }
  }

  lemma LastOfSection(sorted: seq<string>, precedences: map<string, nat>, dep: string) returns (x: string)
    requires Distinct(sorted) && LastPositions(sorted, precedences) && dep in Elements(sorted)
    ensures x in Elements(sorted) && Section(x) == Section(dep)
    ensures Section(dep) in precedences && precedences[Section(dep)] == Pos(sorted, x)
  {
    assert Section(sorted[Pos(sorted, dep)]) in precedences;
    x := sorted[precedences[Section(dep)]];
  }

  lemma NotAfterLast(sorted: seq<string>, precedences: map<string, nat>, y: string)
    requires LastPositions(sorted, precedences) && y in Elements(sorted)
    ensures Section(y) in precedences && Pos(sorted, y) <= precedences[Section(y)]
  {
    assert Section(sorted[Pos(sorted, y)]) in precedences;
  }

  lemma KeepingUpOrdersOne(graph: Pairs<string>, sorted: seq<string>, precedences: map<string, nat>,
                           dep: string, m: string)
    requires !Cyclic(graph) && SectionsKeepUp(graph) && SortAnswer(graph, sorted)
    requires LastPositions(sorted, precedences) && (dep, m) in graph
    ensures Section(dep) in precedences && Section(m) in precedences
            && precedences[Section(dep)] < precedences[Section(m)]
  {
    PairItems(graph, dep, m);
    var x := LastOfSection(sorted, precedences, dep);
    var y := KeepingUpIsLater(graph, sorted, m, x);
    NotAfterLast(sorted, precedences, y);
  }

  lemma KeepingUpOrders(modules: map<string, ModuleInfo>, graph: Pairs<string>, sorted: seq<string>,
                        precedences: map<string, nat>)
    requires GraphOf(modules, graph) && SectionsKeepUp(graph)
    requires !Cyclic(graph) && SortAnswer(graph, sorted) && LastPositions(sorted, precedences)
    ensures PrecedencesOrdered(modules, precedences)
  {
    forall dep, m | DependsOn(modules, m, dep)
      ensures Section(dep) in precedences && Section(m) in precedences
              && precedences[Section(dep)] < precedences[Section(m)]
    {
      KeepingUpOrdersOne(graph, sorted, precedences, dep, m);
    }
  }

  // Sections that deepen keep up.
  lemma DeeperSectionsLater(modules: map<string, ModuleInfo>, graph: Pairs<string>, sorted: seq<string>,
                            precedences: map<string, nat>)
    requires GraphOf(modules, graph) && SectionsDeepen(graph)
    requires !Cyclic(graph) && SortAnswer(graph, sorted) && LastPositions(sorted, precedences)
    ensures SectionsKeepUp(graph) && PrecedencesOrdered(modules, precedences)
  {
    assert SectionsKeepUp(graph);
    KeepingUpOrders(modules, graph, sorted, precedences);
  }

  // section_precendences after the loop, as a function of the sorted list.
  function PrecedencesOf(sorted: seq<string>): map<string, nat> {
    if sorted == [] then map[]
    else PrecedencesOf(sorted[..|sorted| - 1])[Section(sorted[|sorted| - 1]) := |sorted| - 1]
  }

  lemma {:induction false} PrecedencesAreLast(sorted: seq<string>)
    ensures LastPositions(sorted, PrecedencesOf(sorted))
  {
    if sorted != [] {
      var n := |sorted| - 1;
      PrecedencesAreLast(sorted[..n]);
      assert sorted == sorted[..n] + [sorted[n]];
    }
  }

  lemma {:induction false} Listing(s: set<string>) returns (l: seq<string>)
    ensures Distinct(l) && forall x :: x in l <==> x in s
    decreases |s|
  {
    if s == {} {
      l := [];
    } else {
      var x :| x in s;
      l := Listing(s - {x});
      l := l + [x];
    }
  }

  // The roots in an order that ends with r.
  lemma RootsEndingWith(graph: Pairs<string>, r: string) returns (roots: seq<string>)
    requires r in Items(graph) && IsRoot(graph, r)
    ensures RootsListed(graph, roots) && roots != [] && roots[|roots| - 1] == r
  {
    var others := set x | x in Items(graph) && IsRoot(graph, x) && x != r;
    var listed := Listing(others);
    roots := listed + [r];
    assert r !in listed;
    forall x ensures x in roots <==> x in Items(graph) && IsRoot(graph, x) {
      assert x in listed <==> x in others;
      assert x in roots <==> x in listed || x == r;
    }
    assert Distinct(roots);
  }

  lemma RootsBefore(graph: Pairs<string>, roots: seq<string>, sorted: seq<string>, r: string, q: string)
    requires RootsListed(graph, roots) && roots <= sorted && SortAnswer(graph, sorted)
    requires roots != [] && roots[|roots| - 1] == r && q in roots && q != r
    ensures q in Elements(sorted) && r in Elements(sorted) && Pos(sorted, q) < Pos(sorted, r)
  {
    var i :| 0 <= i < |roots| && roots[i] == q;
    assert sorted[i] == q && sorted[|roots| - 1] == r;
    assert q in sorted && r in sorted;
  }

  // With r as the last root, x comes after everything as deep on whose longest climbs it is not overtaken.
  lemma NotOvertakenIsLater(graph: Pairs<string>, sorted: seq<string>, roots: seq<string>, r: string, picks: seq<nat>,
                            x: string, y: string)
    requires !Cyclic(graph) && SortAnswer(graph, sorted) && LongestClimb(graph, r, picks, x)
    requires RootsListed(graph, roots) && roots <= sorted && roots != [] && roots[|roots| - 1] == r
    requires x in Items(graph) && y in Items(graph) && x != y && AtDepth(graph, y, |picks|)
    requires forall more :: |more| == |picks| && LongestClimb(graph, r, more, y) ==> !PicksLess(picks, more)
    ensures Pos(sorted, y) < Pos(sorted, x)
  {
    var q, more := LastClimbExists(graph, sorted, y);
    DepthUnique(graph, y, |more|, |picks|);
    if q == r {
      PicksTotal(more, picks);
    } else {
      RootsBefore(graph, roots, sorted, r, q);
    }
    ClimbDecides(graph, sorted, q, more, r, picks);
  }

  lemma NotBelowIsNotLater(graph: Pairs<string>, sorted: seq<string>, x: string, y: string, k: nat)
    requires SortAnswer(graph, sorted) && x in Items(graph) && y in Items(graph) && AtDepth(graph, x, k)
    requires HasDepth(graph, y) && !AtDepth(graph, y, k) && !Shallower(graph, x, y)
    ensures Pos(sorted, y) < Pos(sorted, x)
  {
    var j: nat :| AtDepth(graph, y, j);
    assert j < k;
    DeeperIsLater(graph, sorted, y, x);
  }

  lemma NoneLaterBreaks(modules: map<string, ModuleInfo>, graph: Pairs<string>, sorted: seq<string>, dep: string,
                        m: string, x: string)
    requires GraphOf(modules, graph) && SortAnswer(graph, sorted) && (dep, m) in graph
    requires x in Items(graph) && Section(x) == Section(dep)
    requires forall y :: y in Items(graph) && Section(y) == Section(m) ==> Pos(sorted, y) <= Pos(sorted, x)
    ensures !PrecedencesOrdered(modules, PrecedencesOf(sorted))
  {
    var precedences := PrecedencesOf(sorted);
    PrecedencesAreLast(sorted);
    PairItems(graph, dep, m);
    assert DependsOn(modules, m, dep);
    assert sorted[Pos(sorted, x)] == x && sorted[Pos(sorted, m)] == m;
    var c := precedences[Section(m)];
    assert sorted[c] in Elements(sorted);
    assert Pos(sorted, sorted[c]) == c;
  }

  // Where a section does not keep up, some order of the roots makes a precedence go wrong.
  lemma FallingBehindBreaks(modules: map<string, ModuleInfo>, graph: Pairs<string>, dep: string, m: string, x: string)
    returns (sorted: seq<string>)
    requires GraphOf(modules, graph) && !Cyclic(graph) && (dep, m) in graph
    requires x in Items(graph) && Section(x) == Section(dep) && !SectionKeepsUp(graph, m, x)
    ensures SortAnswer(graph, sorted) && !PrecedencesOrdered(modules, PrecedencesOf(sorted))
  {
    var r, picks :| LongestClimb(graph, r, picks, x) && !Overtaken(graph, m, r, picks);
    var roots := RootsEndingWith(graph, r);
    sorted := AnswerForRoots(graph, roots);
    forall y | y in Items(graph) && Section(y) == Section(m) ensures Pos(sorted, y) <= Pos(sorted, x) {
      if y != x {
        if AtDepth(graph, y, |picks|) {
          NotOvertakenIsLater(graph, sorted, roots, r, picks, x, y);
        } else {
          AcyclicHasDepth(graph, y);
          NotBelowIsNotLater(graph, sorted, x, y, |picks|);
        }
      }
    }
    NoneLaterBreaks(modules, graph, sorted, dep, m, x);
  }

  // For modules without a cycle: whatever order the dict gives the modules without dependencies,
  // precedences follow dependencies - exactly when sections keep up.
  lemma OrderedIffSectionsKeepUp(modules: map<string, ModuleInfo>, graph: Pairs<string>)
    requires GraphOf(modules, graph) && !Cyclic(graph)
    ensures SectionsKeepUp(graph) <==>
              forall sorted, precedences :: SortAnswer(graph, sorted) && LastPositions(sorted, precedences) ==>
                PrecedencesOrdered(modules, precedences)
  {
    if SectionsKeepUp(graph) {
      forall sorted, precedences | SortAnswer(graph, sorted) && LastPositions(sorted, precedences)
        ensures PrecedencesOrdered(modules, precedences)
      {
        KeepingUpOrders(modules, graph, sorted, precedences);
      }
    } else {
      var dep, m, x :| (dep, m) in graph && x in Items(graph) && Section(x) == Section(dep)
                       && !SectionKeepsUp(graph, m, x);
      var sorted := FallingBehindBreaks(modules, graph, dep, m, x);
      PrecedencesAreLast(sorted);
    }
  }

  // ---------- The scan ----------

  // How the scan ends.
  ghost predicate ScanOutcome(names: seq<string>, modules: map<string, ModuleInfo>, r: ScanResult)
    requires Elements(names) == modules.Keys
  {
    && (r.ScanCycleError? <==> CyclicModules(modules))
    && (r.ScanKeyError? <==> !CyclicModules(modules) && UnknownDependency(modules))
    && (r.Scanned? ==> SectionsFollow(modules, ModuleGraph(names, modules), r))
  }

  // names: the sorted keys of modules; the dependencies of a module are sorted, too.
  method ScanModules(names: seq<string>, modules: map<string, ModuleInfo>) returns (r: ScanResult)
    requires Elements(names) == modules.Keys
    ensures ScanOutcome(names, modules, r)
    ensures r.Scanned? && SectionsKeepUp(ModuleGraph(names, modules)) ==> PrecedencesOrdered(modules, r.precedences)
  {
    var graph := BuildModuleGraph(names, modules);
    GraphMeaning(modules, graph);
    var result := Sort(graph);
    if result.CycleError? {
      return ScanCycleError;
    }
    r := NumberSections(result.answer, modules);
    if r.Scanned? {
      assert SortAnswer(graph, result.answer);
      OrderMeaning(modules, graph, result.answer);
      if SectionsKeepUp(graph) {
        KeepingUpOrders(modules, graph, result.answer, r.precedences);
      }
    }
  }
}
