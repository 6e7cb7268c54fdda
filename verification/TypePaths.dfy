// Configuration paths of the type graph: StaticInformation in
// utils/print-introspected-doxygen.cc (lines 211-291, 328-377, 420-503).

module TypePaths {
  import opened Sequences

  // A TypeId wraps a uint16_t.
  const TYPE_LIMIT: nat := 0x1_0000

  type TypeId = t: int | 0 <= t < TYPE_LIMIT

  // What the checker of an attribute says about the attribute's value.
  datatype Attribute =
    | PointerTo(name: string, pointee: TypeId)
    | ContainerOf(name: string, item: TypeId)
    | Plain(name: string)

  // The registered types: their names, attributes and the IsChildOf relation.
  datatype Registry = Registry(
    names: map<TypeId, string>,
    attributes: map<TypeId, seq<Attribute>>,
    registered: seq<TypeId>,
    subtypes: set<(TypeId, TypeId)>,
    objectType: TypeId)
  {
    function Name(tid: TypeId): string {
      if tid in names then names[tid] else ""
    }

    function Attributes(tid: TypeId): seq<Attribute> {
      if tid in attributes then attributes[tid] else []
    }

    predicate IsChildOf(child: TypeId, parent: TypeId) {
      (child, parent) in subtypes
    }
  }

  // One way to go on from a type: the label put on the path and the type arrived at.
  datatype Edge = Edge(tag: string, target: TypeId)

  // ---------- The edges of the type graph ----------

  function AttributeEdge(reg: Registry, a: Attribute): seq<Edge> {
    match a
    case PointerTo(name, pointee) => if pointee == reg.objectType then [] else [Edge(name, pointee)]
    case ContainerOf(name, item) => [Edge(name + "/[i]", item)]
    case Plain(_) => []
  }

  function SubtypeEdge(reg: Registry, tid: TypeId, child: TypeId): seq<Edge> {
    if reg.IsChildOf(child, tid) then [Edge("$" + reg.Name(child), child)] else []
  }

  // The other side of an aggregation; a type aggregated with itself is its own other side.
  function Other(pair: (TypeId, TypeId), tid: TypeId): TypeId {
    if pair.1 == tid then pair.0 else pair.1
  }

  function AggregateEdge(reg: Registry, tid: TypeId, pair: (TypeId, TypeId)): seq<Edge> {
    if pair.0 == tid || pair.1 == tid then [Edge("$" + reg.Name(Other(pair, tid)), Other(pair, tid))] else []
  }

  function Concat(parts: seq<seq<Edge>>): seq<Edge> {
    if parts == [] then [] else Concat(parts[..|parts| - 1]) + parts[|parts| - 1]
  }

  // The type graph as the traversal sees it: what is looked at for a type, in order, and the edges
  // this gives.
  datatype Graph = Graph(reg: Registry, aggregates: seq<(TypeId, TypeId)>) {
    function Parts(tid: TypeId): (r: seq<seq<Edge>>)
      ensures |r| == |reg.Attributes(tid)| + |reg.registered| + |aggregates|
    {
      var attributes := reg.Attributes(tid);
      seq(|attributes|, i requires 0 <= i < |attributes| => AttributeEdge(reg, attributes[i])) +
      seq(|reg.registered|, j requires 0 <= j < |reg.registered| => SubtypeEdge(reg, tid, reg.registered[j])) +
      seq(|aggregates|, k requires 0 <= k < |aggregates| => AggregateEdge(reg, tid, aggregates[k]))
    }

    function Out(tid: TypeId): seq<Edge> {
      Concat(Parts(tid))
    }
  }

  lemma AttributePart(g: Graph, tid: TypeId, i: nat)
    requires i < |g.reg.Attributes(tid)|
    ensures g.Parts(tid)[i] == AttributeEdge(g.reg, g.reg.Attributes(tid)[i])
  {
  }

  lemma SubtypePart(g: Graph, tid: TypeId, j: nat)
    requires j < |g.reg.registered|
    ensures g.Parts(tid)[|g.reg.Attributes(tid)| + j] == SubtypeEdge(g.reg, tid, g.reg.registered[j])
  {
  }

  lemma AggregatePart(g: Graph, tid: TypeId, k: nat)
    requires k < |g.aggregates|
    ensures g.Parts(tid)[|g.reg.Attributes(tid)| + |g.reg.registered| + k] == AggregateEdge(g.reg, tid, g.aggregates[k])
  {
  }

  // The edges of the first i parts come first, then those of part i.
  lemma {:induction false} ConcatAt(parts: seq<seq<Edge>>, i: nat)
    requires i < |parts|
    ensures Concat(parts[..i + 1]) == Concat(parts[..i]) + parts[i]
    ensures Concat(parts[..i + 1]) <= Concat(parts)
    decreases |parts|
  {
    assert parts[..i + 1][..i] == parts[..i];
    if i + 1 == |parts| {
      assert parts[..i + 1] == parts;
    } else {
      var n := |parts| - 1;
      ConcatAt(parts[..n], i);
      assert parts[..n][..i + 1] == parts[..i + 1] && parts[..n][..i] == parts[..i];
    }
  }

  lemma {:induction false} InConcat(parts: seq<seq<Edge>>, e: Edge)
    ensures e in Concat(parts) <==> exists i :: 0 <= i < |parts| && e in parts[i]
  {
    if parts != [] {
      var n := |parts| - 1;
      InConcat(parts[..n], e);
      assert forall i :: 0 <= i < n ==> parts[..n][i] == parts[i];
    }
  }

  // The four ways in which an edge from tid can come about.
  ghost predicate AlongPointer(g: Graph, tid: TypeId, e: Edge) {
    && tid in g.reg.attributes
    && PointerTo(e.tag, e.target) in g.reg.attributes[tid]
    && e.target != g.reg.objectType
  }

  ghost predicate AlongContainer(g: Graph, tid: TypeId, e: Edge) {
    && tid in g.reg.attributes
    && exists name :: ContainerOf(name, e.target) in g.reg.attributes[tid] && e.tag == name + "/[i]"
  }

  // The label of a type that is arrived at without an attribute.
  ghost predicate LabelledByName(g: Graph, e: Edge) {
    e.tag == "$" + if e.target in g.reg.names then g.reg.names[e.target] else ""
  }

  ghost predicate ToSubtype(g: Graph, tid: TypeId, e: Edge) {
    e.target in g.reg.registered && (e.target, tid) in g.reg.subtypes && LabelledByName(g, e)
  }

  ghost predicate ToAggregate(g: Graph, tid: TypeId, e: Edge) {
    ((tid, e.target) in g.aggregates || (e.target, tid) in g.aggregates) && LabelledByName(g, e)
  }

  lemma PartMeaning(g: Graph, tid: TypeId, i: nat, e: Edge)
    requires i < |g.Parts(tid)| && e in g.Parts(tid)[i]
    ensures AlongPointer(g, tid, e) || AlongContainer(g, tid, e) || ToSubtype(g, tid, e) || ToAggregate(g, tid, e)
  {
    var a, b := |g.reg.Attributes(tid)|, |g.reg.registered|;
    if i < a {
      AttributePart(g, tid, i);
      assert g.reg.Attributes(tid)[i] in g.reg.Attributes(tid);
    } else if i < a + b {
      SubtypePart(g, tid, i - a);
    } else {
      AggregatePart(g, tid, i - a - b);
      assert g.aggregates[i - a - b] in g.aggregates;
    }
  }

  lemma AttributeHasPart(g: Graph, tid: TypeId, e: Edge)
    requires AlongPointer(g, tid, e) || AlongContainer(g, tid, e)
    ensures exists i :: 0 <= i < |g.Parts(tid)| && e in g.Parts(tid)[i]
  {
    var attributes := g.reg.Attributes(tid);
    if AlongPointer(g, tid, e) {
      var i :| 0 <= i < |attributes| && attributes[i] == PointerTo(e.tag, e.target);
      AttributePart(g, tid, i);
    } else {
      var name :| ContainerOf(name, e.target) in attributes && e.tag == name + "/[i]";
      var i :| 0 <= i < |attributes| && attributes[i] == ContainerOf(name, e.target);
      AttributePart(g, tid, i);
    }
  }

  lemma TypeHasPart(g: Graph, tid: TypeId, e: Edge)
    requires ToSubtype(g, tid, e) || ToAggregate(g, tid, e)
    ensures exists i :: 0 <= i < |g.Parts(tid)| && e in g.Parts(tid)[i]
  {
    if ToSubtype(g, tid, e) {
      var j :| 0 <= j < |g.reg.registered| && g.reg.registered[j] == e.target;
      SubtypePart(g, tid, j);
    } else {
      var k :| 0 <= k < |g.aggregates| && (g.aggregates[k] == (tid, e.target) || g.aggregates[k] == (e.target, tid));
      AggregatePart(g, tid, k);
    }
  }

  // The edges from a type are exactly these: its pointers other than to Object, its containers, its
  // registered children, and what it is aggregated with, on either side.
  lemma EdgesOfType(g: Graph, tid: TypeId, e: Edge)
    ensures e in g.Out(tid) <==>
              AlongPointer(g, tid, e) || AlongContainer(g, tid, e) || ToSubtype(g, tid, e) || ToAggregate(g, tid, e)
  {
    InConcat(g.Parts(tid), e);
    if e in g.Out(tid) {
      var i :| 0 <= i < |g.Parts(tid)| && e in g.Parts(tid)[i];
      PartMeaning(g, tid, i, e);
    }
    if AlongPointer(g, tid, e) || AlongContainer(g, tid, e) { AttributeHasPart(g, tid, e); }
    if ToSubtype(g, tid, e) || ToAggregate(g, tid, e) { TypeHasPart(g, tid, e); }
  }

  // ---------- Edge sequences ----------

  // A route is a sequence of edge numbers: at each type, which of its edges to follow.
  type Route = seq<nat>

  predicate IsRoute(g: Graph, tid: TypeId, r: Route)
    decreases |r|
  {
    r == [] || (r[0] < |g.Out(tid)| && IsRoute(g, g.Out(tid)[r[0]].target, r[1..]))
  }

  // The types passed, from the start to the end.
  function TypesOn(g: Graph, tid: TypeId, r: Route): (ts: seq<TypeId>)
    requires IsRoute(g, tid, r)
    ensures |ts| == |r| + 1 && ts[0] == tid
    decreases |r|
  {
    if r == [] then [tid] else [tid] + TypesOn(g, g.Out(tid)[r[0]].target, r[1..])
  }

  function LabelsOn(g: Graph, tid: TypeId, r: Route): (ls: seq<string>)
    requires IsRoute(g, tid, r)
    ensures |ls| == |r|
    decreases |r|
  {
    if r == [] then []
    else [g.Out(tid)[r[0]].tag] + LabelsOn(g, g.Out(tid)[r[0]].target, r[1..])
  }

  ghost predicate AllDistinct(ts: seq<TypeId>) {
    forall i, j :: 0 <= i < j < |ts| ==> ts[i] != ts[j]
  }

  // A route whose types are all different from each other and from those already on the path.
  ghost predicate SimpleRoute(g: Graph, done: seq<TypeId>, tid: TypeId, r: Route) {
    && IsRoute(g, tid, r)
    && AllDistinct(TypesOn(g, tid, r))
    && forall t :: t in TypesOn(g, tid, r) ==> t !in done
  }

  // GetCurrentPath
  function PathText(labels: seq<string>): string {
    if labels == [] then "" else PathText(labels[..|labels| - 1]) + "/" + labels[|labels| - 1]
  }

  // Each label comes after a slash of its own.
  lemma {:induction false} PathTextFromFront(tag: string, labels: seq<string>)
    ensures PathText([]) == "" && PathText([tag] + labels) == "/" + tag + PathText(labels)
  {
    if labels == [] {
      assert ([tag] + labels)[..0] == [];
    } else {
      var n := |labels| - 1;
      PathTextFromFront(tag, labels[..n]);
      assert ([tag] + labels)[..n + 1] == [tag] + labels[..n];
    }
  }

  // The type a route leads to.
  function End(g: Graph, tid: TypeId, r: Route): TypeId
    requires IsRoute(g, tid, r)
  {
    TypesOn(g, tid, r)[|r|]
  }

  lemma {:induction false} RouteAppend(g: Graph, tid: TypeId, r: Route, n: nat)
    requires IsRoute(g, tid, r)
    ensures IsRoute(g, tid, r + [n]) <==> n < |g.Out(End(g, tid, r))|
    ensures n < |g.Out(End(g, tid, r))| ==>
              && TypesOn(g, tid, r + [n]) == TypesOn(g, tid, r) + [g.Out(End(g, tid, r))[n].target]
              && LabelsOn(g, tid, r + [n]) == LabelsOn(g, tid, r) + [g.Out(End(g, tid, r))[n].tag]
    decreases |r|
  {
    var longer := r + [n];
    if r != [] {
      var e := g.Out(tid)[r[0]];
      assert longer[0] == r[0] && longer[1..] == r[1..] + [n];
      RouteAppend(g, e.target, r[1..], n);
      assert End(g, tid, r) == End(g, e.target, r[1..]);
    } else {
      assert longer[0] == n && longer[1..] == [];
    }
  }

  lemma {:induction false} RoutePrefix(g: Graph, tid: TypeId, r: Route, k: nat)
    requires IsRoute(g, tid, r) && k <= |r|
    ensures IsRoute(g, tid, r[..k]) && TypesOn(g, tid, r[..k]) == TypesOn(g, tid, r)[..k + 1]
    decreases |r|
  {
    if k > 0 {
      assert r[..k][1..] == r[1..][..k - 1];
      RoutePrefix(g, g.Out(tid)[r[0]].target, r[1..], k - 1);
    }
  }

  // Whatever can be reached at all can be reached by a route without repeated types.
  lemma {:induction false} SimplifyRoute(g: Graph, tid: TypeId, r: Route) returns (simple: Route)
    requires IsRoute(g, tid, r)
    ensures SimpleRoute(g, [], tid, simple) && End(g, tid, simple) == End(g, tid, r)
    decreases |r|
  {
    if r == [] {
      return [];
    }
    var n := |r| - 1;
    assert r == r[..n] + [r[n]];
    RoutePrefix(g, tid, r, n);
    RouteAppend(g, tid, r[..n], r[n]);
    var first := SimplifyRoute(g, tid, r[..n]);
    var ts := TypesOn(g, tid, first);
    RouteAppend(g, tid, first, r[n]);
    if k: nat :| k < |ts| && ts[k] == End(g, tid, r) {
      RoutePrefix(g, tid, first, k);
      return first[..k];
    }
    simple := first + [r[n]];
  }

  // ---------- What a traversal visits, in order ----------

  ghost predicate Free(done: seq<TypeId>, t: int) {
    forall i :: 0 <= i < |done| ==> done[i] != t
  }

  ghost function Unprocessed(done: seq<TypeId>): set<int> {
    set t: int | 0 <= t < TYPE_LIMIT && Free(done, t)
  }

  lemma ProcessedShrinks(done: seq<TypeId>, tid: TypeId)
    requires tid !in done
    ensures Unprocessed(done + [tid]) < Unprocessed(done)
  {
    assert tid in Unprocessed(done);
    assert (done + [tid])[|done|] == tid;
    forall t | Free(done + [tid], t) ensures Free(done, t) {
      forall i | 0 <= i < |done| ensures done[i] != t {
        assert (done + [tid])[i] == done[i];
      }
    }
  }

  function Prefixed(n: nat, routes: seq<Route>): (r: seq<Route>)
    ensures |r| == |routes|
    ensures forall i :: 0 <= i < |r| ==> r[i] == [n] + routes[i]
  {
    seq(|routes|, i requires 0 <= i < |routes| => [n] + routes[i])
  }

  ghost function Routes(g: Graph, done: seq<TypeId>, tid: TypeId): seq<Route>
    decreases Unprocessed(done), 1, 0
  {
    if tid in done then []
    else
      ProcessedShrinks(done, tid);
      [[]] + Branches(g, done + [tid], g.Out(tid))
  }

  // The routes that start with one of the given edges.
  ghost function Branches(g: Graph, done: seq<TypeId>, edges: seq<Edge>): seq<Route>
    decreases Unprocessed(done), 2, |edges|
  {
    if edges == [] then []
    else
      var n := |edges| - 1;
      Branches(g, done, edges[..n]) + Prefixed(n, Routes(g, done, edges[n].target))
  }

  // ---------- Exactly the simple routes, each once ----------

  lemma DistinctCons(tid: TypeId, tail: seq<TypeId>, done: seq<TypeId>)
    ensures AllDistinct([tid] + tail) && (forall t :: t in [tid] + tail ==> t !in done) <==>
              tid !in done && AllDistinct(tail) && (forall t :: t in tail ==> t !in done + [tid])
  {
    var ts := [tid] + tail;
    assert forall i :: 0 <= i < |tail| ==> ts[i + 1] == tail[i];
    assert tid in ts;
    if AllDistinct(ts) && (forall t :: t in ts ==> t !in done) {
      forall i, j | 0 <= i < j < |tail| ensures tail[i] != tail[j] {
        assert ts[i + 1] != ts[j + 1];
      }
      forall t | t in tail ensures t !in done + [tid] {
        var i :| 0 <= i < |tail| && tail[i] == t;
        assert ts[0] != ts[i + 1] && t in ts;
      }
    }
    if AllDistinct(tail) && forall t :: t in tail ==> t !in done + [tid] {
      assert tid in done + [tid];
      forall t | t in tail ensures t !in done && t != tid {
        assert t in done ==> t in done + [tid];
      }
    }
  }

  lemma SimpleRouteTail(g: Graph, done: seq<TypeId>, tid: TypeId, r: Route)
    requires r != [] && tid !in done
    ensures SimpleRoute(g, done, tid, r) <==>
              r[0] < |g.Out(tid)| && SimpleRoute(g, done + [tid], g.Out(tid)[r[0]].target, r[1..])
  {
    if IsRoute(g, tid, r) {
      DistinctCons(tid, TypesOn(g, g.Out(tid)[r[0]].target, r[1..]), done);
    }
  }

  lemma {:induction false} RoutesAreSimple(g: Graph, done: seq<TypeId>, tid: TypeId, r: Route)
    ensures r in Routes(g, done, tid) <==> SimpleRoute(g, done, tid, r)
    decreases Unprocessed(done), 1, 0
  {
    if tid in done {
      if IsRoute(g, tid, r) { assert TypesOn(g, tid, r)[0] in TypesOn(g, tid, r); }
    } else {
      ProcessedShrinks(done, tid);
      BranchesAreSimple(g, done + [tid], g.Out(tid), r);
      if r != [] { SimpleRouteTail(g, done, tid, r); }
    }
  }

  lemma PrefixedMembers(n: nat, routes: seq<Route>, r: Route)
    ensures r in Prefixed(n, routes) <==> r != [] && r[0] == n && r[1..] in routes
  {
    if r in Prefixed(n, routes) {
      var i :| 0 <= i < |routes| && Prefixed(n, routes)[i] == r;
      assert r[1..] == routes[i];
    }
    if r != [] && r[0] == n && r[1..] in routes {
      var i :| 0 <= i < |routes| && routes[i] == r[1..];
      assert Prefixed(n, routes)[i] == r;
    }
  }

  lemma {:induction false} BranchesAreSimple(g: Graph, done: seq<TypeId>, edges: seq<Edge>, r: Route)
    ensures r in Branches(g, done, edges) <==>
              r != [] && r[0] < |edges| && SimpleRoute(g, done, edges[r[0]].target, r[1..])
    decreases Unprocessed(done), 2, |edges|
  {
    if edges != [] {
      var n := |edges| - 1;
      BranchesAreSimple(g, done, edges[..n], r);
      PrefixedMembers(n, Routes(g, done, edges[n].target), r);
      if r != [] && r[0] == n {
        RoutesAreSimple(g, done, edges[n].target, r[1..]);
      }
    }
  }

  ghost predicate NoRepeats(routes: seq<Route>) {
    forall i, j :: 0 <= i < j < |routes| ==> routes[i] != routes[j]
  }

  lemma {:induction false} RoutesOnce(g: Graph, done: seq<TypeId>, tid: TypeId)
    ensures NoRepeats(Routes(g, done, tid))
    decreases Unprocessed(done), 1, 0
  {
    if tid !in done {
      ProcessedShrinks(done, tid);
      BranchesOnce(g, done + [tid], g.Out(tid));
      BranchesAreSimple(g, done + [tid], g.Out(tid), []);
    }
  }

  lemma {:induction false} BranchesOnce(g: Graph, done: seq<TypeId>, edges: seq<Edge>)
    ensures NoRepeats(Branches(g, done, edges))
    decreases Unprocessed(done), 2, |edges|
  {
    if edges != [] {
      var n := |edges| - 1;
      BranchesOnce(g, done, edges[..n]);
      RoutesOnce(g, done, edges[n].target);
      var first := Branches(g, done, edges[..n]);
      var last := Prefixed(n, Routes(g, done, edges[n].target));
      forall i, j | 0 <= i < |first| && 0 <= j < |last| ensures first[i] != last[j] {
        BranchesAreSimple(g, done, edges[..n], first[i]);
      }
      forall i, j | 0 <= i < j < |last| ensures last[i] != last[j] {
        assert last[i][1..] == Routes(g, done, edges[n].target)[i];
        assert last[j][1..] == Routes(g, done, edges[n].target)[j];
      }
    }
  }

  // ---------- The records written for the routes ----------

  type Record = (TypeId, string)

  ghost function Recorded(g: Graph, path: seq<string>, tid: TypeId, r: Route): Record
    requires IsRoute(g, tid, r)
  {
    (TypesOn(g, tid, r)[|r|], PathText(path + LabelsOn(g, tid, r)))
  }

  ghost predicate Documented(g: Graph, path: seq<string>, tid: TypeId, r: Route, record: Record) {
    IsRoute(g, tid, r) && record == Recorded(g, path, tid, r)
  }

  // records lists the end type and path text of routes, in the same order.
  ghost predicate Documents(g: Graph, path: seq<string>, tid: TypeId, routes: seq<Route>, records: seq<Record>) {
    && |records| == |routes|
    && forall i {:trigger Documented(g, path, tid, routes[i], records[i])} :: 0 <= i < |routes| ==>
         Documented(g, path, tid, routes[i], records[i])
  }

  // records documents every simple route from tid, each once, and nothing else.
  ghost predicate Gathered(g: Graph, tid: TypeId, records: seq<Record>) {
    exists routes ::
      && NoRepeats(routes)
      && (forall r :: r in routes <==> SimpleRoute(g, [], tid, r))
      && Documents(g, [], tid, routes, records)
  }

  lemma RouteIsRecorded(g: Graph, tid: TypeId, records: seq<Record>, r: Route)
    requires Gathered(g, tid, records) && SimpleRoute(g, [], tid, r)
    ensures (End(g, tid, r), PathText(LabelsOn(g, tid, r))) in records
  {
    var routes :| NoRepeats(routes) && (forall r :: r in routes <==> SimpleRoute(g, [], tid, r))
                  && Documents(g, [], tid, routes, records);
    var i :| 0 <= i < |routes| && routes[i] == r;
    assert Documented(g, [], tid, routes[i], records[i]);
    assert [] + LabelsOn(g, tid, r) == LabelsOn(g, tid, r);
  }

  // Where a recorded route can be continued to a new type, that type is recorded too, with a path that is
  // longer by the label.
  lemma NextIsRecorded(g: Graph, tid: TypeId, records: seq<Record>, r: Route, e: Edge)
    requires Gathered(g, tid, records) && SimpleRoute(g, [], tid, r)
    requires e in g.Out(End(g, tid, r)) && e.target !in TypesOn(g, tid, r)
    ensures (End(g, tid, r), PathText(LabelsOn(g, tid, r))) in records
    ensures (e.target, PathText(LabelsOn(g, tid, r)) + "/" + e.tag) in records
  {
    var n :| 0 <= n < |g.Out(End(g, tid, r))| && g.Out(End(g, tid, r))[n] == e;
    RouteAppend(g, tid, r, n);
    RouteIsRecorded(g, tid, records, r);
    RouteIsRecorded(g, tid, records, r + [n]);
    assert (LabelsOn(g, tid, r) + [e.tag])[..|r|] == LabelsOn(g, tid, r);
  }

  // In particular across an aggregation, from either side.
  lemma AggregateIsRecorded(g: Graph, tid: TypeId, records: seq<Record>, r: Route, other: TypeId)
    requires Gathered(g, tid, records) && SimpleRoute(g, [], tid, r) && other !in TypesOn(g, tid, r)
    requires (End(g, tid, r), other) in g.aggregates || (other, End(g, tid, r)) in g.aggregates
    requires other in g.reg.names
    ensures (other, PathText(LabelsOn(g, tid, r)) + "/$" + g.reg.names[other]) in records
  {
    var e := Edge("$" + g.reg.names[other], other);
    EdgesOfType(g, End(g, tid, r), e);
    NextIsRecorded(g, tid, records, r, e);
    assert PathText(LabelsOn(g, tid, r)) + "/" + e.tag == PathText(LabelsOn(g, tid, r)) + "/$" + g.reg.names[other];
  }

  // A type is recorded exactly when it can be reached at all.
  lemma RecordedIffReachable(g: Graph, tid: TypeId, records: seq<Record>, t: TypeId)
    requires Gathered(g, tid, records)
    ensures (exists path :: (t, path) in records) <==> exists r :: IsRoute(g, tid, r) && End(g, tid, r) == t
  {
    var routes :| NoRepeats(routes) && (forall r :: r in routes <==> SimpleRoute(g, [], tid, r))
                  && Documents(g, [], tid, routes, records);
    if path :| (t, path) in records {
      var i :| 0 <= i < |records| && records[i] == (t, path);
      assert Documented(g, [], tid, routes[i], records[i]);
    }
    if r :| IsRoute(g, tid, r) && End(g, tid, r) == t {
      var simple := SimplifyRoute(g, tid, r);
      RouteIsRecorded(g, tid, records, simple);
    }
  }

  lemma DocumentsBranch(g: Graph, path: seq<string>, tid: TypeId, n: nat, routes: seq<Route>, records: seq<Record>)
    requires n < |g.Out(tid)|
    requires Documents(g, path + [g.Out(tid)[n].tag], g.Out(tid)[n].target, routes, records)
    ensures Documents(g, path, tid, Prefixed(n, routes), records)
  {
    var e := g.Out(tid)[n];
    forall i | 0 <= i < |routes| ensures Documented(g, path, tid, Prefixed(n, routes)[i], records[i]) {
      assert Documented(g, path + [e.tag], e.target, routes[i], records[i]);
      assert ([n] + routes[i])[1..] == routes[i];
      assert path + ([e.tag] + LabelsOn(g, e.target, routes[i]))
          == (path + [e.tag]) + LabelsOn(g, e.target, routes[i]);
    }
  }

  lemma DocumentsConcat(g: Graph, path: seq<string>, tid: TypeId, r1: seq<Route>, s1: seq<Record>,
                        r2: seq<Route>, s2: seq<Record>)
    requires Documents(g, path, tid, r1, s1) && Documents(g, path, tid, r2, s2)
    ensures Documents(g, path, tid, r1 + r2, s1 + s2)
  {
    var r, s := r1 + r2, s1 + s2;
    forall i | 0 <= i < |r| ensures Documented(g, path, tid, r[i], s[i]) {
      if i < |r1| {
        assert Documented(g, path, tid, r1[i], s1[i]);
      } else {
        assert Documented(g, path, tid, r2[i - |r1|], s2[i - |r1|]);
      }
    }
  }

  lemma BranchesStep(g: Graph, done: seq<TypeId>, edges: seq<Edge>, n: nat)
    requires n < |edges|
    ensures [[]] + Branches(g, done, edges[..n + 1])
            == [[]] + Branches(g, done, edges[..n]) + Prefixed(n, Routes(g, done, edges[n].target))
  {
    assert edges[..n + 1][..n] == edges[..n];
  }

  // Following edge n adds the documentation of the routes that start with it.
  lemma FollowDocuments(g: Graph, path: seq<string>, done: seq<TypeId>, tid: TypeId, n: nat,
                        records: seq<Record>, more: seq<Record>)
    requires n < |g.Out(tid)|
    requires Documents(g, path, tid, [[]] + Branches(g, done + [tid], g.Out(tid)[..n]), records)
    requires var e := g.Out(tid)[n];
             Documents(g, path + [e.tag], e.target, Routes(g, done + [tid], e.target), more)
    ensures Documents(g, path, tid, [[]] + Branches(g, done + [tid], g.Out(tid)[..n + 1]), records + more)
  {
    var edges, onPath := g.Out(tid), done + [tid];
    var before := [[]] + Branches(g, onPath, edges[..n]);
    var added := Prefixed(n, Routes(g, onPath, edges[n].target));
    DocumentsBranch(g, path, tid, n, Routes(g, onPath, edges[n].target), more);
    DocumentsConcat(g, path, tid, before, records, added, more);
    BranchesStep(g, onPath, edges, n);
  }

  // What has been recorded since output0 while the edges of tid are followed: n of them are done with.
  ghost predicate Following(g: Graph, tid: TypeId, n: nat, path: seq<string>, done: seq<TypeId>,
                            output0: seq<Record>, output: seq<Record>)
  {
    && n <= |g.Out(tid)|
    && output0 <= output
    && Documents(g, path, tid, [[]] + Branches(g, done + [tid], g.Out(tid)[..n]), output[|output0|..])
  }

  // The first k parts of what is looked at for tid are done with.
  ghost predicate PartsDone(g: Graph, tid: TypeId, k: nat, path: seq<string>, done: seq<TypeId>,
                            output0: seq<Record>, output: seq<Record>)
  {
    var parts := g.Parts(tid);
    k <= |parts| && Following(g, tid, |Concat(parts[..k])|, path, done, output0, output)
  }

  // ---------- The class ----------

  // paths are those of the records of tid; at lists where these records stand, in order.
  ghost predicate PathsAt(records: seq<Record>, tid: TypeId, at: seq<nat>, paths: seq<string>) {
    && Ascending(at)
    && (forall i: nat :: i in at <==> i < |records| && records[i].0 == tid)
    && |paths| == |at|
    && forall k :: 0 <= k < |at| ==> at[k] < |records| && paths[k] == records[at[k]].1
  }

  class StaticInformation {
    const reg: Registry
    var output: seq<Record>
    var currentPath: seq<string>
    var alreadyProcessed: seq<TypeId>
    var aggregates: seq<(TypeId, TypeId)>

    constructor (reg: Registry)
      ensures this.reg == reg
      ensures output == [] && currentPath == [] && alreadyProcessed == [] && aggregates == []
    {
      this.reg := reg;
      output, currentPath, alreadyProcessed, aggregates := [], [], [], [];
    }

    ghost function TypeGraph(): Graph
      reads this
    {
      Graph(reg, aggregates)
    }

    method GetCurrentPath() returns (text: string)
      ensures text == PathText(currentPath)
    {
      text := "";
      for i := 0 to |currentPath|
        invariant text == PathText(currentPath[..i])
      {
        assert currentPath[..i + 1][..i] == currentPath[..i];
        text := text + "/" + currentPath[i];
      }
      assert currentPath[..|currentPath|] == currentPath;
    }

    method HasAlreadyBeenProcessed(tid: TypeId) returns (r: bool)
      ensures r <==> tid in alreadyProcessed
    {
      for i := 0 to |alreadyProcessed|
        invariant tid !in alreadyProcessed[..i]
      {
        if alreadyProcessed[i] == tid {
          return true;
        }
      }
      return false;
    }

    method RecordOutput(tid: TypeId)
      modifies this`output
      ensures output == old(output) + [(tid, PathText(currentPath))]
    {
      var path := GetCurrentPath();
      output := output + [(tid, path)];
    }

    // Get: the recorded paths of one type, in the order of recording.
    method Get(tid: TypeId) returns (paths: seq<string>)
      ensures exists at :: PathsAt(output, tid, at, paths)
    {
      paths := [];
      ghost var at: seq<nat> := [];
      for i := 0 to |output|
        invariant PathsAt(output[..i], tid, at, paths)
      {
        if output[i].0 == tid {
          AscendingAppend(at, i);
          paths, at := paths + [output[i].1], at + [i];
        }
      }
      assert output[..|output|] == output;
    }

    // Push the label, push the type, gather the target, pop both.
    method Follow(ghost g: Graph, tid: TypeId, tag: string, target: TypeId, ghost n: nat, ghost output0: seq<Record>)
      requires tid !in alreadyProcessed
      requires g == TypeGraph() && Following(g, tid, n, currentPath, alreadyProcessed, output0, output)
      requires n < |g.Out(tid)| && g.Out(tid)[n] == Edge(tag, target)
      modifies this`output, this`currentPath, this`alreadyProcessed
      ensures currentPath == old(currentPath) && alreadyProcessed == old(alreadyProcessed)
      ensures Following(g, tid, n + 1, currentPath, alreadyProcessed, output0, output)
      decreases Unprocessed(alreadyProcessed), 0
    {
      ghost var path, done := currentPath, alreadyProcessed;
      ghost var records := output[|output0|..];
      ProcessedShrinks(alreadyProcessed, tid);
      currentPath := currentPath + [tag];
      alreadyProcessed := alreadyProcessed + [tid];
      DoGather(target);
      alreadyProcessed := alreadyProcessed[..|alreadyProcessed| - 1];
      currentPath := currentPath[..|currentPath| - 1];
      ghost var more := output[|old(output)|..];
      FollowDocuments(g, path, done, tid, n, records, more);
      assert output[|output0|..] == records + more;
    }

    method DoGather(tid: TypeId)
      modifies this`output, this`currentPath, this`alreadyProcessed
      ensures currentPath == old(currentPath) && alreadyProcessed == old(alreadyProcessed)
      ensures old(output) <= output
      ensures Documents(TypeGraph(), currentPath, tid, Routes(TypeGraph(), alreadyProcessed, tid),
                        output[|old(output)|..])
      decreases Unprocessed(alreadyProcessed), 3
    {
      var processed := HasAlreadyBeenProcessed(tid);
      if processed {
        return;
      }
      RecordOutput(tid);
      ghost var g := TypeGraph();
      assert currentPath + LabelsOn(g, tid, []) == currentPath;
      assert g.Parts(tid)[..0] == [];
      assert [[]] + Branches(g, alreadyProcessed + [tid], g.Out(tid)[..0]) == [[]];
      assert Documented(g, currentPath, tid, [], output[|output| - 1]);
      GatherAttributes(g, tid, old(output));
      GatherSubtypes(g, tid, old(output));
      GatherAggregates(g, tid, old(output));
      assert g.Parts(tid)[..|g.Parts(tid)|] == g.Parts(tid);
      assert g.Out(tid)[..|g.Out(tid)|] == g.Out(tid);
    }

    // One record for each edge sequence from tid whose types are all distinct: none is missed, none
    // is recorded twice, and nothing else is recorded. Uniquefy works on a copy.
    method Gather(tid: TypeId)
      requires currentPath == [] && alreadyProcessed == []
      modifies this`output, this`currentPath, this`alreadyProcessed
      ensures currentPath == [] && alreadyProcessed == [] && old(output) <= output
      ensures Gathered(TypeGraph(), tid, output[|old(output)|..])
    {
      DoGather(tid);
      ghost var routes := Routes(TypeGraph(), [], tid);
      RoutesOnce(TypeGraph(), [], tid);
      forall r ensures r in routes <==> SimpleRoute(TypeGraph(), [], tid, r) {
        RoutesAreSimple(TypeGraph(), [], tid, r);
      }
      assert Documents(TypeGraph(), [], tid, routes, output[|old(output)|..]);
    }

    // Part k holds one edge, or none when the loop skips it.
    method FollowPart(ghost g: Graph, tid: TypeId, follow: bool, tag: string, target: TypeId, ghost k: nat,
                      ghost output0: seq<Record>)
      requires tid !in alreadyProcessed && g == TypeGraph()
      requires PartsDone(g, tid, k, currentPath, alreadyProcessed, output0, output)
      requires k < |g.Parts(tid)| && g.Parts(tid)[k] == if follow then [Edge(tag, target)] else []
      modifies this`output, this`currentPath, this`alreadyProcessed
      ensures currentPath == old(currentPath) && alreadyProcessed == old(alreadyProcessed)
      ensures PartsDone(g, tid, k + 1, currentPath, alreadyProcessed, output0, output)
      decreases Unprocessed(alreadyProcessed), 1
    {
      ghost var parts := g.Parts(tid);
      ConcatAt(parts, k);
      if follow {
        ghost var n := |Concat(parts[..k])|;
        assert g.Out(tid)[n] == Edge(tag, target);
        Follow(g, tid, tag, target, n, output0);
      }
    }

    // The loop over the attributes: pointers are followed unless they point to an Object, containers
    // always, other attributes never.
    method GatherAttributes(ghost g: Graph, tid: TypeId, ghost output0: seq<Record>)
      requires tid !in alreadyProcessed && g == TypeGraph()
      requires PartsDone(g, tid, 0, currentPath, alreadyProcessed, output0, output)
      modifies this`output, this`currentPath, this`alreadyProcessed
      ensures currentPath == old(currentPath) && alreadyProcessed == old(alreadyProcessed)
      ensures PartsDone(g, tid, |reg.Attributes(tid)|, currentPath, alreadyProcessed, output0, output)
      decreases Unprocessed(alreadyProcessed), 2, 1
    {
      var attributes := reg.Attributes(tid);
      for i := 0 to |attributes|
        invariant currentPath == old(currentPath) && alreadyProcessed == old(alreadyProcessed)
        invariant PartsDone(g, tid, i, currentPath, alreadyProcessed, output0, output)
      {
        GatherAttribute(g, tid, attributes[i], i, output0);
      }
    }

    method GatherAttribute(ghost g: Graph, tid: TypeId, info: Attribute, ghost i: nat, ghost output0: seq<Record>)
      requires tid !in alreadyProcessed && i < |reg.Attributes(tid)| && reg.Attributes(tid)[i] == info
      requires g == TypeGraph() && PartsDone(g, tid, i, currentPath, alreadyProcessed, output0, output)
      modifies this`output, this`currentPath, this`alreadyProcessed
      ensures currentPath == old(currentPath) && alreadyProcessed == old(alreadyProcessed)
      ensures PartsDone(g, tid, i + 1, currentPath, alreadyProcessed, output0, output)
      decreases Unprocessed(alreadyProcessed), 2, 0
    {
      AttributePart(g, tid, i);
      match info {
        case PointerTo(name, pointee) => FollowPart(g, tid, pointee != reg.objectType, name, pointee, i, output0);
        case ContainerOf(name, item) => FollowPart(g, tid, true, name + "/[i]", item, i, output0);
        case Plain(name) => FollowPart(g, tid, false, name, tid, i, output0);
      }
    }

    // The loop over the registered types.
    method GatherSubtypes(ghost g: Graph, tid: TypeId, ghost output0: seq<Record>)
      requires tid !in alreadyProcessed
      requires g == TypeGraph()
      requires PartsDone(g, tid, |reg.Attributes(tid)|, currentPath, alreadyProcessed, output0, output)
      modifies this`output, this`currentPath, this`alreadyProcessed
      ensures currentPath == old(currentPath) && alreadyProcessed == old(alreadyProcessed)
      ensures PartsDone(g, tid, |reg.Attributes(tid)| + |reg.registered|, currentPath, alreadyProcessed,
                        output0, output)
      decreases Unprocessed(alreadyProcessed), 2
    {
      for j := 0 to |reg.registered|
        invariant currentPath == old(currentPath) && alreadyProcessed == old(alreadyProcessed)
        invariant PartsDone(g, tid, |reg.Attributes(tid)| + j, currentPath, alreadyProcessed, output0, output)
      {
        var child := reg.registered[j];
        SubtypePart(g, tid, j);
        FollowPart(g, tid, reg.IsChildOf(child, tid), "$" + reg.Name(child), child, |reg.Attributes(tid)| + j, output0);
      }
    }

    // other stays an invalid TypeId unless one of the sides is tid.
    method OtherSide(item: (TypeId, TypeId), tid: TypeId) returns (other: TypeId)
      ensures item.0 == tid || item.1 == tid ==> other == Other(item, tid)
    {
      other := 0;
      if item.0 == tid {
        other := item.1;
      }
      if item.1 == tid {
        other := item.0;
      }
    }

    // The loop over the recorded aggregations.
    method GatherAggregates(ghost g: Graph, tid: TypeId, ghost output0: seq<Record>)
      requires tid !in alreadyProcessed
      requires g == TypeGraph()
      requires PartsDone(g, tid, |reg.Attributes(tid)| + |reg.registered|, currentPath, alreadyProcessed,
                         output0, output)
      modifies this`output, this`currentPath, this`alreadyProcessed
      ensures currentPath == old(currentPath) && alreadyProcessed == old(alreadyProcessed)
      ensures PartsDone(g, tid, |g.Parts(tid)|, currentPath, alreadyProcessed, output0, output)
      decreases Unprocessed(alreadyProcessed), 2, 1
    {
      var items := aggregates;
      ghost var part := |g.Parts(tid)| - |items|;
      for k := 0 to |items|
        invariant part == |g.Parts(tid)| - |items| + k
        invariant currentPath == old(currentPath) && alreadyProcessed == old(alreadyProcessed)
        invariant PartsDone(g, tid, part, currentPath, alreadyProcessed, output0, output)
      {
        part := GatherAggregate(g, tid, items[k], k, part, output0);
      }
    }

    method GatherAggregate(ghost g: Graph, tid: TypeId, item: (TypeId, TypeId), ghost k: nat, ghost part: nat,
                           ghost output0: seq<Record>)
      returns (ghost next: nat)
      requires tid !in alreadyProcessed && k < |g.aggregates| && g.aggregates[k] == item
      requires part == |g.Parts(tid)| - |g.aggregates| + k
      requires g == TypeGraph() && PartsDone(g, tid, part, currentPath, alreadyProcessed, output0, output)
      modifies this`output, this`currentPath, this`alreadyProcessed
      ensures currentPath == old(currentPath) && alreadyProcessed == old(alreadyProcessed)
      ensures next == part + 1 && PartsDone(g, tid, next, currentPath, alreadyProcessed, output0, output)
      decreases Unprocessed(alreadyProcessed), 2, 0
    {
      var other := OtherSide(item, tid);
      AggregatePart(g, tid, k);
      FollowPart(g, tid, item.0 == tid || item.1 == tid, "$" + reg.Name(other), other, part, output0);
      next := part + 1;
    }
  }
}
