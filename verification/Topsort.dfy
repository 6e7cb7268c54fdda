// Dependency sorting: topsort, topsort_levels and topsort_levels_core of
// bindings/python/topsort.py (lines 61-232). A dict is a map held in a local variable; the
// order in which a dict lists its keys is arbitrary, so it is left to an assign-such-that.

module Topsort {
  import opened Sequences
  import opened Dependencies

  datatype SortResult<T> =
    | Sorted(answer: seq<T>)
    | CycleError(answer: seq<T>, numParents: map<T, int>, children: map<T, seq<T>>)

  datatype LevelsResult<T> =
    | Exhausted(levels: seq<seq<T>>)
    | LevelsCycleError(levels: seq<seq<T>>, numParents: map<T, int>, children: map<T, seq<T>>)

  // num_parents: the items not yet accounted for, each with its number of unaccounted parents.
  ghost predicate Counts<T>(pairs: Pairs<T>, done: set<T>, numParents: map<T, int>) {
    && numParents.Keys == Items(pairs) - done
    && forall x :: x in numParents ==> numParents[x] == Pending(pairs, done, x)
  }

  // children: the child lists of the parents not yet accounted for; a list may be empty or absent
  // for an item without children.
  ghost predicate Lists<T(!new)>(pairs: Pairs<T>, done: set<T>, children: map<T, seq<T>>) {
    && (forall p :: p in children ==> p !in done && children[p] == Successors(pairs, p))
    && (forall p :: p !in children && p !in done ==> Successors(pairs, p) == [])
  }

  ghost predicate ParentsFirst<T(!new)>(pairs: Pairs<T>, answer: seq<T>) {
    forall j, p :: 0 <= j < |answer| && (p, answer[j]) in pairs ==> p in answer[..j]
  }

  ghost predicate DepthOrdered<T(!new)>(pairs: Pairs<T>, answer: seq<T>) {
    forall i, j, m: nat, n: nat ::
      (0 <= i < j < |answer| && AtDepth(pairs, answer[i], m) && AtDepth(pairs, answer[j], n)) ==> m <= n
  }

  function WithKey<T(==)>(numParents: map<T, int>, x: T): map<T, int> {
    if x in numParents then numParents else numParents[x := 0]
  }

  lemma ItemsStep<T>(pairs: Pairs<T>, p: T, c: T)
    ensures Items(pairs + [(p, c)]) == Items(pairs) + {p, c}
  {
    var longer := pairs + [(p, c)];
    forall x | x in Items(pairs) + {p, c} ensures x in Items(longer) {
      if x == p || x == c {
        assert longer[|pairs|] == (p, c);
      } else {
        var i :| 0 <= i < |pairs| && (pairs[i].0 == x || pairs[i].1 == x);
        assert longer[i] == pairs[i];
      }
    }
  }

  lemma {:induction false} NewItem<T>(pairs: Pairs<T>, x: T)
    requires x !in Items(pairs)
    ensures Pending(pairs, {}, x) == 0 && Successors(pairs, x) == []
  {
    if pairs != [] {
      var n := |pairs| - 1;
      assert pairs == pairs[..n] + [(pairs[n].0, pairs[n].1)];
      ItemsStep(pairs[..n], pairs[n].0, pairs[n].1);
      NewItem(pairs[..n], x);
    }
  }

  lemma CountsAdd<T(!new)>(pairs: Pairs<T>, numParents: map<T, int>, p: T, c: T)
    requires Counts(pairs, {}, numParents)
    ensures var keyed := WithKey(WithKey(numParents, p), c);
            Counts(pairs + [(p, c)], {}, keyed[c := keyed[c] + 1])
  {
    var longer := pairs + [(p, c)];
    ItemsStep(pairs, p, c);
    assert longer[..|pairs|] == pairs;
    forall x | x !in Items(pairs) ensures Pending(pairs, {}, x) == 0 { NewItem(pairs, x); }
  }

  lemma ListsAdd<T(!new)>(pairs: Pairs<T>, children: map<T, seq<T>>, p: T, c: T)
    requires Lists(pairs, {}, children)
    ensures var known := if p in children then children[p] else [];
            Lists(pairs + [(p, c)], {}, children[p := known + [c]])
  {
    assert (pairs + [(p, c)])[..|pairs|] == pairs;
  }

  // The first loop of both functions.
  method BuildGraph<T(==,!new)>(pairs: Pairs<T>)
    returns (numParents: map<T, int>, children: map<T, seq<T>>)
    ensures Counts(pairs, {}, numParents) && Lists(pairs, {}, children)
  {
    numParents, children := map[], map[];
    for i := 0 to |pairs|
      invariant Counts(pairs[..i], {}, numParents)
      invariant Lists(pairs[..i], {}, children)
    {
      var (parent, child) := pairs[i];
      assert pairs[..i + 1] == pairs[..i] + [(parent, child)];
      CountsAdd(pairs[..i], numParents, parent, child);
      ListsAdd(pairs[..i], children, parent, child);
      if parent !in numParents {
        numParents := numParents[parent := 0];
      }
      if child !in numParents {
        numParents := numParents[child := 0];
      }
      numParents := numParents[child := numParents[child] + 1];
      if parent !in children {
        children := children[parent := []];
      }
      children := children[parent := children[parent] + [child]];
    }
    assert pairs[..|pairs|] == pairs;
  }

  // [x for x in num_parents.keys() if num_parents[x] == 0]
  method WithoutParents<T(==)>(numParents: map<T, int>) returns (ready: seq<T>)
    ensures Distinct(ready)
    ensures forall x :: x in ready <==> x in numParents && numParents[x] == 0
  {
    ready := [];
    var keys := numParents.Keys;
    while keys != {}
      invariant keys <= numParents.Keys && Distinct(ready)
      invariant forall x :: x in ready <==> x in numParents && x !in keys && numParents[x] == 0
    {
      var x :| x in keys;
      keys := keys - {x};
      if numParents[x] == 0 {
        ready := ready + [x];
      }
    }
  }

  // ---------- The order of the answer ----------

  // Where the last parent of an item stands in the answer, and where the item stands for the last time
  // among that parent's children.
  datatype Key = Key(parent: int, child: int)

  predicate Earlier(a: Key, b: Key) {
    a.parent < b.parent || (a.parent == b.parent && a.child < b.child)
  }

  ghost predicate KeyOf<T(!new)>(pairs: Pairs<T>, answer: seq<T>, x: T, key: Key) {
    && 0 <= key.parent < |answer|
    && 0 <= key.child < |Successors(pairs, answer[key.parent])|
    && Successors(pairs, answer[key.parent])[key.child] == x
    && x !in Successors(pairs, answer[key.parent])[key.child + 1..]
    && forall p :: (p, x) in pairs ==> p in answer[..key.parent + 1]
  }

  // Items with parents stand in the order of their keys.
  ghost predicate KeyOrdered<T(!new)>(pairs: Pairs<T>, answer: seq<T>) {
    forall i, j, a, b ::
      (0 <= i < |answer| && 0 <= j < |answer|
       && KeyOf(pairs, answer, answer[i], a) && KeyOf(pairs, answer, answer[j], b) && Earlier(a, b)) ==> i < j
  }

  ghost predicate IsRoot<T(!new)>(pairs: Pairs<T>, x: T) {
    forall p :: (p, x) !in pairs
  }

  // The items without parents, in the order in which the dict lists them.
  ghost predicate RootsListed<T(!new)>(pairs: Pairs<T>, roots: seq<T>) {
    Distinct(roots) && forall x :: x in roots <==> x in Items(pairs) && IsRoot(pairs, x)
  }

  ghost predicate StartsWithRoots<T(!new)>(pairs: Pairs<T>, answer: seq<T>) {
    exists roots :: RootsListed(pairs, roots) && roots <= answer
  }

  ghost predicate HasKey<T(!new)>(pairs: Pairs<T>, answer: seq<T>, x: T, key: Key) {
    if key.parent < 0 then IsRoot(pairs, x) else KeyOf(pairs, answer, x, key)
  }

  ghost predicate Increasing(keys: seq<Key>) {
    forall i, j :: 0 <= i < j < |keys| ==> Earlier(keys[i], keys[j])
  }

  lemma IncreasingDecides(keys: seq<Key>, i: nat, j: nat)
    requires Increasing(keys) && i < |keys| && j < |keys| && Earlier(keys[i], keys[j])
    ensures i < j
  {
  }

  // The keys of a growing answer, all earlier than the next one to be given away; those of the items
  // without parents are negative.
  ghost predicate Keyed<T(!new)>(pairs: Pairs<T>, answer: seq<T>, keys: seq<Key>, next: Key) {
    && |keys| == |answer|
    && (forall i :: 0 <= i < |keys| ==> Earlier(keys[i], next) && HasKey(pairs, answer, answer[i], keys[i]))
    && Increasing(keys)
  }

  lemma LastIsUnique<T>(s: seq<T>, x: T, i: nat, j: nat)
    requires i < |s| && s[i] == x && x !in s[i + 1..]
    requires j < |s| && s[j] == x && x !in s[j + 1..]
    ensures i == j
  {
  }

  lemma KeyUnique<T(!new)>(pairs: Pairs<T>, answer: seq<T>, x: T, a: Key, b: Key)
    requires Distinct(answer) && KeyOf(pairs, answer, x, a) && KeyOf(pairs, answer, x, b)
    ensures a == b
  {
    SuccessorIsPair(pairs, answer[a.parent], x);
    SuccessorIsPair(pairs, answer[b.parent], x);
    assert answer[a.parent] in answer[..b.parent + 1] && answer[b.parent] in answer[..a.parent + 1];
    LastIsUnique(Successors(pairs, answer[a.parent]), x, a.child, b.child);
  }

  lemma OwnKey<T(!new)>(pairs: Pairs<T>, answer: seq<T>, keys: seq<Key>, next: Key, i: nat, a: Key)
    requires Distinct(answer) && Keyed(pairs, answer, keys, next)
    requires i < |answer| && KeyOf(pairs, answer, answer[i], a)
    ensures keys[i] == a
  {
    SuccessorIsPair(pairs, answer[a.parent], answer[i]);
    assert HasKey(pairs, answer, answer[i], keys[i]);
    KeyUnique(pairs, answer, answer[i], a, keys[i]);
  }

  lemma EarlierKeyFirst<T(!new)>(pairs: Pairs<T>, answer: seq<T>, keys: seq<Key>, next: Key, i: nat, j: nat,
                                 a: Key, b: Key)
    requires Distinct(answer) && Keyed(pairs, answer, keys, next) && i < |answer| && j < |answer|
    requires KeyOf(pairs, answer, answer[i], a) && KeyOf(pairs, answer, answer[j], b) && Earlier(a, b)
    ensures i < j
  {
    OwnKey(pairs, answer, keys, next, i, a);
    OwnKey(pairs, answer, keys, next, j, b);
    IncreasingDecides(keys, i, j);
  }

  lemma KeyedIsOrdered<T(!new)>(pairs: Pairs<T>, answer: seq<T>, keys: seq<Key>, next: Key)
    requires Distinct(answer) && Keyed(pairs, answer, keys, next)
    ensures KeyOrdered(pairs, answer)
  {
    forall i: nat, j: nat, a, b |
      i < |answer| && j < |answer|
      && KeyOf(pairs, answer, answer[i], a) && KeyOf(pairs, answer, answer[j], b) && Earlier(a, b)
      ensures i < j
    {
      EarlierKeyFirst(pairs, answer, keys, next, i, j, a, b);
    }
  }

  lemma KeysWait<T(!new)>(pairs: Pairs<T>, answer: seq<T>, keys: seq<Key>, next: Key, later: Key)
    requires Keyed(pairs, answer, keys, next) && (next == later || Earlier(next, later))
    ensures Keyed(pairs, answer, keys, later)
  {
  }

  lemma KeyGrows<T(!new)>(pairs: Pairs<T>, answer: seq<T>, c: T, x: T, key: Key)
    requires HasKey(pairs, answer, x, key)
    ensures HasKey(pairs, answer + [c], x, key)
  {
    if key.parent >= 0 { assert (answer + [c])[..key.parent + 1] == answer[..key.parent + 1]; }
  }

  // The item appended gets the next key.
  lemma KeyAppend<T(!new)>(pairs: Pairs<T>, answer: seq<T>, keys: seq<Key>, i: nat, n: nat, c: T)
    requires Keyed(pairs, answer, keys, Key(i, n)) && KeyOf(pairs, answer, c, Key(i, n))
    ensures Keyed(pairs, answer + [c], keys + [Key(i, n)], Key(i, n + 1))
  {
    var more, moreKeys := answer + [c], keys + [Key(i, n)];
    forall j | 0 <= j < |more| ensures HasKey(pairs, more, more[j], moreKeys[j]) {
      KeyGrows(pairs, answer, c, more[j], moreKeys[j]);
    }
  }

  lemma InitialKeys<T(!new)>(pairs: Pairs<T>, answer: seq<T>) returns (keys: seq<Key>)
    requires forall x :: x in answer ==> IsRoot(pairs, x)
    ensures Keyed(pairs, answer, keys, Key(0, 0))
  {
    keys := seq(|answer|, i => Key(-1, i));
    forall i | 0 <= i < |answer| ensures HasKey(pairs, answer, answer[i], keys[i]) {
      assert answer[i] in answer;
    }
  }

  // ---------- topsort ----------

  // What holds of the answer when its first i items have been accounted for; depths are theirs.
  ghost predicate Progress<T(!new)>(pairs: Pairs<T>, answer: seq<T>, depths: seq<nat>, i: nat) {
    && Distinct(answer)
    && ParentsFirst(pairs, answer)
    && |depths| == |answer|
    && i <= |answer|
    && (forall j :: 0 <= j < |answer| ==> AtDepth(pairs, answer[j], depths[j]))
    && (forall j, k :: 0 <= j <= k < |depths| ==> depths[j] <= depths[k])
    && (forall j :: i < |answer| && 0 <= j < |depths| ==> depths[j] <= depths[i] + 1)
  }

  // The counts while the children of parent are being knocked down; n of them have been.
  ghost predicate CountsWithin<T>(pairs: Pairs<T>, done: set<T>, parent: T, n: nat, numParents: map<T, int>) {
    && n <= |Successors(pairs, parent)|
    && numParents.Keys == Items(pairs) - (done + {parent})
    && forall x :: x in numParents ==>
         numParents[x] == Pending(pairs, done, x) - multiset(Successors(pairs, parent)[..n])[x]
  }

  lemma PrefixCount<T>(s: seq<T>, n: nat, x: T)
    requires n < |s|
    ensures multiset(s[..n + 1])[x] == multiset(s[..n])[x] + if s[n] == x then 1 else 0
    ensures multiset(s[..n + 1])[x] <= multiset(s)[x]
  {
    assert s[..n + 1] == s[..n] + [s[n]];
    assert s == s[..n + 1] + s[n + 1..];
  }

  // The next child is still counted, because its pair with parent is.
  lemma NextChild<T(!new)>(pairs: Pairs<T>, done: set<T>, parent: T, n: nat, numParents: map<T, int>)
    requires parent !in done && CountsWithin(pairs, done, parent, n, numParents)
    requires forall x, p :: x in done + {parent} && (p, x) in pairs ==> p in done
    requires n < |Successors(pairs, parent)|
    ensures Successors(pairs, parent)[n] in numParents && numParents[Successors(pairs, parent)[n]] >= 1
    ensures numParents[Successors(pairs, parent)[n]] == 1 ==>
              forall p :: (p, Successors(pairs, parent)[n]) in pairs ==> p in done + {parent}
    ensures (parent, Successors(pairs, parent)[n]) in pairs
  {
    var c := Successors(pairs, parent)[n];
    SuccessorIsPair(pairs, parent, c);
    PairItems(pairs, parent, c);
    PrefixCount(Successors(pairs, parent), n, c);
    PendingStep(pairs, done, parent, c);
    PendingZero(pairs, done + {parent}, c);
  }

  // A count of 1 goes with the last occurrence among the children of the last parent.
  lemma LastOccurrence<T(!new)>(pairs: Pairs<T>, done: set<T>, parent: T, n: nat, numParents: map<T, int>)
    requires parent !in done && CountsWithin(pairs, done, parent, n, numParents)
    requires n < |Successors(pairs, parent)|
    requires var c := Successors(pairs, parent)[n]; c in numParents && numParents[c] == 1
    ensures Successors(pairs, parent)[n] !in Successors(pairs, parent)[n + 1..]
  {
    var cs := Successors(pairs, parent);
    PendingStep(pairs, done, parent, cs[n]);
    PrefixCount(cs, n, cs[n]);
    assert cs == cs[..n + 1] + cs[n + 1..];
    assert multiset(cs)[cs[n]] == multiset(cs[..n + 1])[cs[n]] + multiset(cs[n + 1..])[cs[n]];
  }

  lemma CountsAfter<T(!new)>(pairs: Pairs<T>, done: set<T>, parent: T, numParents: map<T, int>)
    requires parent !in done
    requires CountsWithin(pairs, done, parent, |Successors(pairs, parent)|, numParents)
    ensures Counts(pairs, done + {parent}, numParents)
  {
    var cs := Successors(pairs, parent);
    assert cs[..|cs|] == cs;
    forall x | x in numParents ensures numParents[x] == Pending(pairs, done + {parent}, x) {
      PendingStep(pairs, done, parent, x);
    }
  }

  lemma ChildDepth<T(!new)>(pairs: Pairs<T>, answer: seq<T>, depths: seq<nat>, i: nat, c: T)
    requires i < |answer| && Progress(pairs, answer, depths, i)
    requires (answer[i], c) in pairs
    requires forall p :: (p, c) in pairs ==> p in answer[..i + 1]
    ensures AtDepth(pairs, c, depths[i] + 1)
  {
    PairItems(pairs, answer[i], c);
    var k := depths[i] + 1;
    forall p | (p, c) in pairs ensures DepthBelow(pairs, p, k) {
      var j :| 0 <= j < i + 1 && answer[j] == p;
      assert AtDepth(pairs, p, depths[j]);
    }
    DepthFromParents(pairs, c, k);
  }

  lemma ParentsFirstAppend<T(!new)>(pairs: Pairs<T>, answer: seq<T>, c: T)
    requires ParentsFirst(pairs, answer)
    requires forall p :: (p, c) in pairs ==> p in answer
    ensures ParentsFirst(pairs, answer + [c])
  {
    var longer := answer + [c];
    forall j, p | 0 <= j < |longer| && (p, longer[j]) in pairs ensures p in longer[..j] {
      if j < |answer| {
        assert longer[..j] == answer[..j];
      } else {
        assert longer[..j] == answer;
      }
    }
  }

  // A child whose last parent is answer[i] goes one level deeper, at the end of the answer.
  lemma AppendChild<T(!new)>(pairs: Pairs<T>, answer: seq<T>, depths: seq<nat>, i: nat, c: T)
    requires i < |answer| && Progress(pairs, answer, depths, i)
    requires c !in answer && (answer[i], c) in pairs
    requires forall p :: (p, c) in pairs ==> p in answer[..i + 1]
    ensures Progress(pairs, answer + [c], depths + [depths[i] + 1], i)
  {
    ChildDepth(pairs, answer, depths, i, c);
    ParentsFirstAppend(pairs, answer, c);
  }

  ghost predicate Ready<T(!new)>(answer: seq<T>, done: set<T>, numParents: map<T, int>) {
    forall x :: x in answer <==> x in done || (x in numParents && numParents[x] == 0)
  }

  // The state between two items of the growing answer ...
  ghost predicate Between<T(!new)>(pairs: Pairs<T>, answer: seq<T>, depths: seq<nat>, i: nat, numParents: map<T, int>) {
    && Progress(pairs, answer, depths, i)
    && Counts(pairs, Elements(answer[..i]), numParents)
    && Ready(answer, Elements(answer[..i]), numParents)
  }

  // ... and while the children of answer[i] are being knocked down.
  ghost predicate Within<T(!new)>(pairs: Pairs<T>, answer: seq<T>, depths: seq<nat>, i: nat, n: nat,
                                  numParents: map<T, int>) {
    && Progress(pairs, answer, depths, i)
    && i < |answer|
    && CountsWithin(pairs, Elements(answer[..i]), answer[i], n, numParents)
    && Ready(answer, Elements(answer[..i]) + {answer[i]}, numParents)
  }

  lemma PrefixElements<T>(answer: seq<T>, i: nat)
    requires i < |answer| && Distinct(answer)
    ensures Elements(answer[..i + 1]) == Elements(answer[..i]) + {answer[i]}
    ensures answer[i] !in Elements(answer[..i])
  {
    assert answer[..i + 1] == answer[..i] + [answer[i]];
  }

  lemma EnterItem<T(!new)>(pairs: Pairs<T>, answer: seq<T>, depths: seq<nat>, i: nat, numParents: map<T, int>)
    requires i < |answer| && Between(pairs, answer, depths, i, numParents)
    ensures answer[i] in numParents
    ensures Within(pairs, answer, depths, i, 0, numParents - {answer[i]})
  {
    PrefixElements(answer, i);
    assert answer[i] in answer;
  }

  lemma CountStep<T>(pairs: Pairs<T>, done: set<T>, parent: T, n: nat, numParents: map<T, int>)
    requires CountsWithin(pairs, done, parent, n, numParents) && n < |Successors(pairs, parent)|
    requires Successors(pairs, parent)[n] in numParents
    ensures var c := Successors(pairs, parent)[n];
            CountsWithin(pairs, done, parent, n + 1, numParents[c := numParents[c] - 1])
  {
    var cs := Successors(pairs, parent);
    forall x | x in numParents
      ensures multiset(cs[..n + 1])[x] == multiset(cs[..n])[x] + if cs[n] == x then 1 else 0
    {
      PrefixCount(cs, n, x);
    }
  }

  // num_parents[child] -= 1
  function Knocked<T(==)>(numParents: map<T, int>, c: T): map<T, int>
    requires c in numParents
  {
    numParents[c := numParents[c] - 1]
  }

  lemma ParentsAccounted<T(!new)>(pairs: Pairs<T>, answer: seq<T>, i: nat)
    requires i < |answer| && ParentsFirst(pairs, answer)
    ensures forall x, p :: x in Elements(answer[..i + 1]) && (p, x) in pairs ==> p in Elements(answer[..i])
  {
    forall x, p | x in Elements(answer[..i + 1]) && (p, x) in pairs ensures p in Elements(answer[..i]) {
      var j :| 0 <= j < i + 1 && answer[j] == x;
      assert p in answer[..j];
      assert answer[..j] <= answer[..i];
    }
  }

  // The next child of answer[i]: counted at least once, and not in the answer yet.
  lemma ChildPending<T(!new)>(pairs: Pairs<T>, answer: seq<T>, depths: seq<nat>, i: nat, n: nat,
                              numParents: map<T, int>)
    requires Within(pairs, answer, depths, i, n, numParents) && n < |Successors(pairs, answer[i])|
    ensures var c := Successors(pairs, answer[i])[n];
            && c in numParents && numParents[c] >= 1 && c !in answer && (answer[i], c) in pairs
            && CountsWithin(pairs, Elements(answer[..i]), answer[i], n + 1, Knocked(numParents, c))
            && (numParents[c] == 1 ==> KeyOf(pairs, answer, c, Key(i, n)))
  {
    var c := Successors(pairs, answer[i])[n];
    var done := Elements(answer[..i]);
    PrefixElements(answer, i);
    ParentsAccounted(pairs, answer, i);
    NextChild(pairs, done, answer[i], n, numParents);
    CountStep(pairs, done, answer[i], n, numParents);
    if numParents[c] == 1 { LastOccurrence(pairs, done, answer[i], n, numParents); }
  }

  lemma ReadyStep<T(!new)>(answer: seq<T>, done: set<T>, numParents: map<T, int>, c: T)
    requires Ready(answer, done, numParents) && c in numParents && c !in answer && numParents[c] >= 1
    ensures numParents[c] != 1 ==> Ready(answer, done, Knocked(numParents, c))
    ensures numParents[c] == 1 ==> Ready(answer + [c], done, Knocked(numParents, c))
  {
  }

  lemma ChildStep<T(!new)>(pairs: Pairs<T>, answer: seq<T>, depths: seq<nat>, i: nat, n: nat, numParents: map<T, int>)
    requires Within(pairs, answer, depths, i, n, numParents) && n < |Successors(pairs, answer[i])|
    ensures var c := Successors(pairs, answer[i])[n];
            && c in numParents
            && (numParents[c] == 1 ==> KeyOf(pairs, answer, c, Key(i, n)))
            && (numParents[c] != 1 ==> Within(pairs, answer, depths, i, n + 1, Knocked(numParents, c)))
            && (numParents[c] == 1 ==>
                  Within(pairs, answer + [c], depths + [depths[i] + 1], i, n + 1, Knocked(numParents, c)))
  {
    var c := Successors(pairs, answer[i])[n];
    ChildPending(pairs, answer, depths, i, n, numParents);
    ReadyStep(answer, Elements(answer[..i]) + {answer[i]}, numParents, c);
    if numParents[c] == 1 {
      AppendChild(pairs, answer, depths, i, c);
      assert (answer + [c])[..i] == answer[..i];
    }
  }

  lemma DepthAdvance<T(!new)>(pairs: Pairs<T>, answer: seq<T>, depths: seq<nat>, i: nat)
    requires i < |answer| && Progress(pairs, answer, depths, i)
    ensures Progress(pairs, answer, depths, i + 1)
  {
    if i + 1 < |answer| { assert depths[i] <= depths[i + 1]; }
  }

  lemma LeaveItem<T(!new)>(pairs: Pairs<T>, answer: seq<T>, depths: seq<nat>, i: nat, numParents: map<T, int>)
    requires i < |answer| && Within(pairs, answer, depths, i, |Successors(pairs, answer[i])|, numParents)
    ensures Between(pairs, answer, depths, i + 1, numParents)
  {
    PrefixElements(answer, i);
    CountsAfter(pairs, Elements(answer[..i]), answer[i], numParents);
    DepthAdvance(pairs, answer, depths, i);
  }

  lemma ForgetParent<T(!new)>(pairs: Pairs<T>, done: set<T>, children: map<T, seq<T>>, parent: T)
    requires Lists(pairs, done, children) && parent !in done
    ensures parent in children ==> children[parent] == Successors(pairs, parent)
    ensures parent !in children ==> Successors(pairs, parent) == []
    ensures Lists(pairs, done + {parent}, children - {parent})
    ensures parent !in children ==> children - {parent} == children
  {
  }

  // num_parents[child] -= 1, and answer.append(child) when this leaves 0
  method KnockDownChild<T(==,!new)>(ghost pairs: Pairs<T>, answer0: seq<T>, ghost depths0: seq<nat>, i: nat,
                                    ghost n: nat, child: T, numParents0: map<T, int>, ghost keys0: seq<Key>)
    returns (answer: seq<T>, ghost depths: seq<nat>, numParents: map<T, int>, ghost keys: seq<Key>)
    requires Within(pairs, answer0, depths0, i, n, numParents0) && Keyed(pairs, answer0, keys0, Key(i, n))
    requires n < |Successors(pairs, answer0[i])| && child == Successors(pairs, answer0[i])[n]
    ensures answer0 <= answer && Within(pairs, answer, depths, i, n + 1, numParents)
    ensures Keyed(pairs, answer, keys, Key(i, n + 1))
  {
    answer, depths, keys := answer0, depths0, keys0;
    ChildStep(pairs, answer, depths, i, n, numParents0);
    numParents := Knocked(numParents0, child);
    if numParents[child] == 0 {
      KeyAppend(pairs, answer, keys, i, n, child);
      answer, depths, keys := answer + [child], depths + [depths[i] + 1], keys + [Key(i, n)];
    } else {
      KeysWait(pairs, answer, keys, Key(i, n), Key(i, n + 1));
    }
  }

  // for child in children[parent]: knock down its count, append it when the count reaches 0.
  method KnockDownChildren<T(==,!new)>(ghost pairs: Pairs<T>, answer0: seq<T>, ghost depths0: seq<nat>, i: nat,
                                       list: seq<T>, numParents0: map<T, int>, ghost keys0: seq<Key>)
    returns (answer: seq<T>, ghost depths: seq<nat>, numParents: map<T, int>, ghost keys: seq<Key>)
    requires i < |answer0| && list == Successors(pairs, answer0[i])
    requires Within(pairs, answer0, depths0, i, 0, numParents0) && Keyed(pairs, answer0, keys0, Key(i, 0))
    ensures answer0 <= answer && Within(pairs, answer, depths, i, |list|, numParents)
    ensures Keyed(pairs, answer, keys, Key(i, |list|))
  {
    answer, depths, numParents, keys := answer0, depths0, numParents0, keys0;
    for n := 0 to |list|
      invariant answer0 <= answer
      invariant Within(pairs, answer, depths, i, n, numParents)
      invariant Keyed(pairs, answer, keys, Key(i, n))
    {
      assert answer[i] == answer0[i];
      answer, depths, numParents, keys := KnockDownChild(pairs, answer, depths, i, n, list[n], numParents, keys);
    }
  }

  // The body of the loop over the growing answer: account for answer[i].
  method KnockDown<T(==,!new)>(ghost pairs: Pairs<T>, answer0: seq<T>, ghost depths0: seq<nat>, i: nat,
                               numParents0: map<T, int>, children0: map<T, seq<T>>, ghost keys0: seq<Key>)
    returns (answer: seq<T>, ghost depths: seq<nat>, numParents: map<T, int>, children: map<T, seq<T>>,
             ghost keys: seq<Key>)
    requires i < |answer0| && Between(pairs, answer0, depths0, i, numParents0)
    requires Keyed(pairs, answer0, keys0, Key(i, 0))
    requires Lists(pairs, Elements(answer0[..i]), children0)
    ensures i < |answer| && answer0 <= answer && Between(pairs, answer, depths, i + 1, numParents)
    ensures Keyed(pairs, answer, keys, Key(i + 1, 0))
    ensures Lists(pairs, Elements(answer[..i + 1]), children)
  {
    answer, depths, children, keys := answer0, depths0, children0, keys0;
    var parent := answer[i];
    EnterItem(pairs, answer, depths, i, numParents0);
    PrefixElements(answer, i);
    ForgetParent(pairs, Elements(answer[..i]), children, parent);
    numParents := numParents0 - {parent};
    if parent in children {
      answer, depths, numParents, keys :=
        KnockDownChildren(pairs, answer, depths, i, children[parent], numParents, keys);
      KeysWait(pairs, answer, keys, Key(i, |children[parent]|), Key(i + 1, 0));
      children := children - {parent};
    } else {
      KeysWait(pairs, answer, keys, Key(i, 0), Key(i + 1, 0));
    }
    LeaveItem(pairs, answer, depths, i, numParents);
    assert answer[..i + 1] == answer0[..i + 1];
  }

  lemma InitialProgress<T(!new)>(pairs: Pairs<T>, answer: seq<T>, numParents: map<T, int>) returns (depths: seq<nat>)
    requires Counts(pairs, {}, numParents) && Distinct(answer)
    requires forall x :: x in answer <==> x in numParents && numParents[x] == 0
    ensures Progress(pairs, answer, depths, 0)
    ensures StartsWithRoots(pairs, answer) && forall x :: x in answer ==> IsRoot(pairs, x)
  {
    depths := seq(|answer|, _ => 0);
    forall x ensures x in answer <==> x in Items(pairs) && IsRoot(pairs, x) {
      PendingZero(pairs, {}, x);
      assert x in numParents <==> x in numParents.Keys;
    }
    assert RootsListed(pairs, answer) && answer <= answer;
    forall j | 0 <= j < |answer|
      ensures AtDepth(pairs, answer[j], 0) && forall p :: (p, answer[j]) !in pairs
    {
      assert answer[j] in answer;
      PendingZero(pairs, {}, answer[j]);
      DepthFromParents(pairs, answer[j], 0);
    }
  }

  lemma StillStartsWithRoots<T(!new)>(pairs: Pairs<T>, answer: seq<T>, longer: seq<T>)
    requires StartsWithRoots(pairs, answer) && answer <= longer
    ensures StartsWithRoots(pairs, longer)
  {
    var roots :| RootsListed(pairs, roots) && roots <= answer;
    assert roots <= longer;
  }

  lemma RemainingIsStuck<T(!new)>(pairs: Pairs<T>, done: set<T>, numParents: map<T, int>)
    requires Counts(pairs, done, numParents)
    requires forall x :: x in numParents ==> numParents[x] != 0
    ensures Stuck(pairs, numParents.Keys)
    ensures forall x :: x in numParents ==> !HasDepth(pairs, x)
    ensures numParents.Keys != {} ==> Cyclic(pairs)
  {
    forall x | x in numParents ensures HasParentIn(pairs, numParents.Keys, x) {
      PendingZero(pairs, done, x);
      var p :| (p, x) in pairs && p !in done;
      PairItems(pairs, p, x);
    }
    forall x | x in numParents ensures !HasDepth(pairs, x) {
      if HasDepth(pairs, x) {
        var k: nat :| AtDepth(pairs, x, k);
        StuckHasWalk(pairs, numParents.Keys, x, k + 1);
      }
    }
    if numParents.Keys != {} { StuckMeansCyclic(pairs, numParents.Keys); }
  }

  lemma DepthListOrdered<T(!new)>(pairs: Pairs<T>, answer: seq<T>, depths: seq<nat>)
    requires Progress(pairs, answer, depths, |answer|)
    ensures DepthOrdered(pairs, answer)
    ensures forall x :: x in answer ==> HasDepth(pairs, x)
  {
    forall i, j, m: nat, n: nat | 0 <= i < j < |answer| && AtDepth(pairs, answer[i], m) && AtDepth(pairs, answer[j], n)
      ensures m <= n
    {
      DepthUnique(pairs, answer[i], m, depths[i]);
      DepthUnique(pairs, answer[j], n, depths[j]);
    }
    forall x | x in answer ensures HasDepth(pairs, x) {
      var j :| 0 <= j < |answer| && answer[j] == x;
      assert AtDepth(pairs, x, depths[j]);
    }
  }

  lemma AnswerBound<T(!new)>(pairs: Pairs<T>, answer: seq<T>, depths: seq<nat>, i: nat, numParents: map<T, int>)
    requires Between(pairs, answer, depths, i, numParents)
    ensures |answer| <= |Items(pairs)|
  {
    forall x | x in answer ensures x in Items(pairs) {
      var j :| 0 <= j < |answer| && answer[j] == x;
      DepthParents(pairs, x, depths[j]);
    }
    DistinctBound(answer, Items(pairs));
  }

  // When the answer stops growing, what is left in num_parents is exactly what has no depth.
  lemma AllAccounted<T(!new)>(pairs: Pairs<T>, answer: seq<T>, depths: seq<nat>, numParents: map<T, int>)
    requires Between(pairs, answer, depths, |answer|, numParents)
    ensures DepthOrdered(pairs, answer)
    ensures forall x :: x in answer <==> HasDepth(pairs, x)
    ensures numParents != map[] <==> Cyclic(pairs)
    ensures numParents == map[] ==> Elements(answer) == Items(pairs)
  {
    assert answer[..|answer|] == answer;
    RemainingIsStuck(pairs, Elements(answer), numParents);
    DepthListOrdered(pairs, answer, depths);
    forall x | HasDepth(pairs, x) ensures x in Items(pairs) {
      var k: nat :| AtDepth(pairs, x, k);
      DepthParents(pairs, x, k);
    }
    if numParents == map[] {
      assert numParents.Keys == {};
      assert forall x :: x in answer ==> HasDepth(pairs, x);
      DepthsExcludeCycles(pairs);
    } else {
      var x :| x in numParents;
    }
  }

  method Sort<T(==,!new)>(pairs: Pairs<T>) returns (r: SortResult<T>)
    ensures r.CycleError? <==> Cyclic(pairs)
    ensures r.Sorted? ==> Elements(r.answer) == Items(pairs)
    ensures Distinct(r.answer) && ParentsFirst(pairs, r.answer) && DepthOrdered(pairs, r.answer)
    ensures forall x :: x in r.answer <==> HasDepth(pairs, x)
    ensures StartsWithRoots(pairs, r.answer) && KeyOrdered(pairs, r.answer)
    ensures r.CycleError? ==> Counts(pairs, Elements(r.answer), r.numParents)
                              && Lists(pairs, Elements(r.answer), r.children)
  {
    var numParents, children := BuildGraph(pairs);
    var answer := WithoutParents(numParents);
    ghost var depths := InitialProgress(pairs, answer, numParents);
    ghost var keys := InitialKeys(pairs, answer);
    var i := 0;
    assert Elements(answer[..0]) == {};
    while i < |answer|
      invariant i <= |answer| && Between(pairs, answer, depths, i, numParents)
      invariant Lists(pairs, Elements(answer[..i]), children)
      invariant Keyed(pairs, answer, keys, Key(i, 0)) && StartsWithRoots(pairs, answer)
      decreases |Items(pairs)| - i
    {
      AnswerBound(pairs, answer, depths, i, numParents);
      ghost var before := answer;
      answer, depths, numParents, children, keys := KnockDown(pairs, answer, depths, i, numParents, children, keys);
      StillStartsWithRoots(pairs, before, answer);
      i := i + 1;
    }
    assert answer[..i] == answer;
    AllAccounted(pairs, answer, depths, numParents);
    KeyedIsOrdered(pairs, answer, keys, Key(i, 0));
    if numParents != map[] {
      r := CycleError(answer, numParents, children);
    } else {
      r := Sorted(answer);
    }
  }

  // ---------- topsort_levels ----------

  ghost predicate LevelsOf<T(!new)>(pairs: Pairs<T>, levels: seq<seq<T>>) {
    forall k :: 0 <= k < |levels| ==>
      levels[k] != [] && Distinct(levels[k]) && forall x :: x in levels[k] <==> AtDepth(pairs, x, k)
  }

  ghost predicate Shallow<T(!new)>(pairs: Pairs<T>, done: set<T>, k: nat) {
    forall x :: x in done <==> DepthBelow(pairs, x, k)
  }

  // Once everything shallower is accounted for, the items without parents are those of depth k.
  lemma LevelIsDepth<T(!new)>(pairs: Pairs<T>, done: set<T>, numParents: map<T, int>, k: nat)
    requires Shallow(pairs, done, k) && Counts(pairs, done, numParents)
    ensures forall x :: x in numParents && numParents[x] == 0 <==> AtDepth(pairs, x, k)
  {
    forall x | x in numParents && numParents[x] == 0 ensures AtDepth(pairs, x, k) {
      PendingZero(pairs, done, x);
      if HasWalk(pairs, x, k + 1) {
        var p := HasWalkParent(pairs, x, k);
      }
      var j := DepthExists(pairs, x, k + 1);
    }
    forall x | AtDepth(pairs, x, k) ensures x in numParents && numParents[x] == 0 {
      DepthParents(pairs, x, k);
      PendingZero(pairs, done, x);
    }
  }

  lemma NextShallow<T(!new)>(pairs: Pairs<T>, done: set<T>, level: seq<T>, k: nat)
    requires Shallow(pairs, done, k) && forall x :: x in level <==> AtDepth(pairs, x, k)
    ensures Shallow(pairs, done + Elements(level), k + 1)
  {
    forall x ensures x in done + Elements(level) <==> DepthBelow(pairs, x, k + 1) {
      if DepthBelow(pairs, x, k + 1) {
        var j: nat :| j < k + 1 && AtDepth(pairs, x, j);
        assert j == k || DepthBelow(pairs, x, k);
      }
    }
  }

  // Parents of accounted items are accounted.
  ghost predicate Closed<T(!new)>(pairs: Pairs<T>, done: set<T>) {
    forall x, p :: x in done && (p, x) in pairs ==> p in done
  }

  lemma ShallowIsClosed<T(!new)>(pairs: Pairs<T>, done: set<T>, k: nat)
    requires Shallow(pairs, done, k)
    ensures Closed(pairs, done)
    ensures forall x, p :: AtDepth(pairs, x, k) && (p, x) in pairs ==> p in done
  {
    forall x, p | x in done && (p, x) in pairs ensures p in done {
      var j: nat :| j < k && AtDepth(pairs, x, j);
      DepthParents(pairs, x, j);
      var i: nat :| i < j && AtDepth(pairs, p, i);
    }
    forall x, p | AtDepth(pairs, x, k) && (p, x) in pairs ensures p in done {
      DepthParents(pairs, x, k);
    }
  }

  // The body of the loop over one level: del num_parents[p], then release the children of p.
  method ReleaseItem<T(==,!new)>(ghost pairs: Pairs<T>, ghost done: set<T>, parent: T,
                                 numParents0: map<T, int>, children0: map<T, seq<T>>)
    returns (numParents: map<T, int>, children: map<T, seq<T>>)
    requires Counts(pairs, done, numParents0) && Lists(pairs, done, children0)
    requires Closed(pairs, done) && parent in numParents0
    requires forall p :: (p, parent) in pairs ==> p in done
    ensures Counts(pairs, done + {parent}, numParents) && Lists(pairs, done + {parent}, children)
  {
    numParents, children := numParents0 - {parent}, children0;
    ForgetParent(pairs, done, children, parent);
    if parent in children {
      var list := children[parent];
      for n := 0 to |list|
        invariant CountsWithin(pairs, done, parent, n, numParents)
      {
        NextChild(pairs, done, parent, n, numParents);
        CountStep(pairs, done, parent, n, numParents);
        numParents := Knocked(numParents, list[n]);
      }
      children := children - {parent};
    }
    CountsAfter(pairs, done, parent, numParents);
  }

  method ReleaseLevel<T(==,!new)>(ghost pairs: Pairs<T>, ghost done: set<T>, ghost k: nat, level: seq<T>,
                                  numParents0: map<T, int>, children0: map<T, seq<T>>)
    returns (numParents: map<T, int>, children: map<T, seq<T>>)
    requires Counts(pairs, done, numParents0) && Lists(pairs, done, children0)
    requires Shallow(pairs, done, k) && Distinct(level) && forall x :: x in level <==> AtDepth(pairs, x, k)
    requires forall x :: x in level ==> x in numParents0
    ensures Counts(pairs, done + Elements(level), numParents) && Lists(pairs, done + Elements(level), children)
  {
    numParents, children := numParents0, children0;
    ShallowIsClosed(pairs, done, k);
    ghost var accounted := done;
    for m := 0 to |level|
      invariant accounted == done + Elements(level[..m])
      invariant Counts(pairs, accounted, numParents) && Lists(pairs, accounted, children)
    {
      PrefixElements(level, m);
      assert level[m] in level && level[m] !in done;
      assert Closed(pairs, accounted);
      numParents, children := ReleaseItem(pairs, accounted, level[m], numParents, children);
      accounted := accounted + {level[m]};
    }
    assert level[..|level|] == level;
  }

  lemma AppendLevel<T(!new)>(pairs: Pairs<T>, levels: seq<seq<T>>, level: seq<T>)
    requires LevelsOf(pairs, levels) && level != [] && Distinct(level)
    requires forall x :: x in level <==> AtDepth(pairs, x, |levels|)
    ensures LevelsOf(pairs, levels + [level])
  {
  }

  lemma FewerItems<T(!new)>(pairs: Pairs<T>, done: set<T>, x: T, before: map<T, int>, after: map<T, int>, more: set<T>)
    requires Counts(pairs, done, before) && x in before && x in more
    requires Counts(pairs, done + more, after)
    ensures after.Keys < before.Keys
  {
    assert x !in after.Keys;
  }

  // The details of a CycleError: what has no depth, with its pending parents and child lists.
  ghost predicate Unleveled<T(!new)>(pairs: Pairs<T>, r: LevelsResult<T>)
    requires r.LevelsCycleError?
  {
    && (forall x :: x in r.numParents <==> x in Items(pairs) && !HasDepth(pairs, x))
    && Counts(pairs, Items(pairs) - r.numParents.Keys, r.numParents)
    && Lists(pairs, Items(pairs) - r.numParents.Keys, r.children)
  }

  lemma LevelsComplete<T(!new)>(pairs: Pairs<T>, done: set<T>, k: nat, numParents: map<T, int>)
    requires Shallow(pairs, done, k) && Counts(pairs, done, numParents)
    requires forall x :: x in numParents ==> numParents[x] != 0
    ensures forall x, j: nat :: AtDepth(pairs, x, j) ==> j < k
    ensures numParents != map[] <==> Cyclic(pairs)
    ensures forall x :: x in numParents <==> x in Items(pairs) && !HasDepth(pairs, x)
    ensures done <= Items(pairs)
  {
    RemainingIsStuck(pairs, done, numParents);
    forall x | x in done ensures x in Items(pairs) {
      var j: nat :| j < k && AtDepth(pairs, x, j);
      DepthParents(pairs, x, j);
    }
    forall x | x in Items(pairs) && x !in numParents ensures HasDepth(pairs, x) {
      assert x !in numParents.Keys;
      var j: nat :| j < k && AtDepth(pairs, x, j);
    }
    forall x, j: nat | AtDepth(pairs, x, j) ensures j < k {
      DepthParents(pairs, x, j);
      assert HasDepth(pairs, x);
      assert x in done;
      var i: nat :| i < k && AtDepth(pairs, x, i);
    }
    if numParents == map[] {
      assert numParents.Keys == {};
      DepthsExcludeCycles(pairs);
    } else {
      var x :| x in numParents;
    }
  }

  method SortLevelsCore<T(==,!new)>(ghost pairs: Pairs<T>, numParents0: map<T, int>, children0: map<T, seq<T>>)
    returns (r: LevelsResult<T>)
    requires Counts(pairs, {}, numParents0) && Lists(pairs, {}, children0)
    ensures LevelsOf(pairs, r.levels)
    ensures forall x, k: nat :: AtDepth(pairs, x, k) ==> k < |r.levels|
    ensures r.LevelsCycleError? <==> Cyclic(pairs)
    ensures r.LevelsCycleError? ==> Unleveled(pairs, r)
  {
    var numParents, children := numParents0, children0;
    var levels: seq<seq<T>> := [];
    ghost var done: set<T> := {};
    while true
      invariant LevelsOf(pairs, levels) && Shallow(pairs, done, |levels|)
      invariant Counts(pairs, done, numParents) && Lists(pairs, done, children)
      decreases numParents.Keys
    {
      ghost var k := |levels|;
      var levelParents := WithoutParents(numParents);
      LevelIsDepth(pairs, done, numParents, k);
      if levelParents == [] {
        break;
      }
      AppendLevel(pairs, levels, levelParents);
      levels := levels + [levelParents];
      ghost var before := numParents;
      numParents, children := ReleaseLevel(pairs, done, k, levelParents, numParents, children);
      NextShallow(pairs, done, levelParents, k);
      FewerItems(pairs, done, levelParents[0], before, numParents, Elements(levelParents));
      done := done + Elements(levelParents);
    }
    LevelsComplete(pairs, done, |levels|, numParents);
    if numParents != map[] {
      assert done == Items(pairs) - numParents.Keys;
      r := LevelsCycleError(levels, numParents, children);
    } else {
      r := Exhausted(levels);
    }
  }

  method SortLevels<T(==,!new)>(pairs: Pairs<T>) returns (r: LevelsResult<T>)
    ensures LevelsOf(pairs, r.levels)
    ensures forall x, k: nat :: AtDepth(pairs, x, k) ==> k < |r.levels|
    ensures r.LevelsCycleError? <==> Cyclic(pairs)
    ensures r.LevelsCycleError? ==> Unleveled(pairs, r)
  {
    var numParents, children := BuildGraph(pairs);
    r := SortLevelsCore(pairs, numParents, children);
  }

  // ---------- The two sorts agree ----------

  function Total<T>(levels: seq<seq<T>>): nat {
    if levels == [] then 0 else Total(levels[..|levels| - 1]) + |levels[|levels| - 1]|
  }

  lemma {:induction false} DistinctCounts<T>(s: seq<T>)
    requires Distinct(s)
    ensures forall x :: multiset(s)[x] == if x in s then 1 else 0
  {
    if s != [] {
      var n := |s| - 1;
      DistinctCounts(s[..n]);
      assert s == s[..n] + [s[n]];
    }
  }

  lemma SameElementsSameCounts<T>(a: seq<T>, b: seq<T>)
    requires Distinct(a) && Distinct(b) && Elements(a) == Elements(b)
    ensures |a| == |b| && multiset(a) == multiset(b)
  {
    DistinctCardinality(a);
    DistinctCardinality(b);
    DistinctCounts(a);
    DistinctCounts(b);
    forall x ensures multiset(a)[x] == multiset(b)[x] {
      assert x in a <==> x in Elements(a);
      assert x in b <==> x in Elements(b);
    }
  }

  ghost predicate AnswerOf<T(!new)>(pairs: Pairs<T>, answer: seq<T>) {
    && Distinct(answer)
    && DepthOrdered(pairs, answer)
    && forall x :: x in answer <==> HasDepth(pairs, x)
  }

  // The first Total(levels[..k]) items of the answer are those shallower than k.
  ghost predicate SplitAt<T(!new)>(pairs: Pairs<T>, answer: seq<T>, levels: seq<seq<T>>, k: nat)
    requires k <= |levels|
  {
    && Total(levels[..k]) <= |answer|
    && forall j :: 0 <= j < |answer| ==>
         (j < Total(levels[..k]) <==> DepthBelow(pairs, answer[j], k))
  }

  // The slice of the answer between two splits holds the items of one level, each once.
  ghost predicate SliceIsLevel<T>(answer: seq<T>, levels: seq<seq<T>>, k: nat)
    requires k < |levels|
  {
    && Total(levels[..k]) <= Total(levels[..k + 1]) <= |answer|
    && multiset(answer[Total(levels[..k])..Total(levels[..k + 1])]) == multiset(levels[k])
  }

  lemma AtDepthInSlice<T(!new)>(pairs: Pairs<T>, answer: seq<T>, k: nat, from: nat, to: nat, j: nat)
    requires AnswerOf(pairs, answer) && from <= to <= |answer| && j < |answer|
    requires forall i :: 0 <= i < |answer| ==> (i < from <==> DepthBelow(pairs, answer[i], k))
    requires to < |answer| ==> !AtDepth(pairs, answer[to], k)
    requires AtDepth(pairs, answer[j], k)
    ensures from <= j < to
  {
    assert to < |answer| ==> answer[to] in answer;
  }

  lemma SliceHoldsLevel<T(!new)>(pairs: Pairs<T>, answer: seq<T>, levels: seq<seq<T>>, k: nat, from: nat, to: nat)
    requires AnswerOf(pairs, answer) && LevelsOf(pairs, levels) && k < |levels|
    requires from <= to <= |answer|
    requires forall i :: 0 <= i < |answer| ==> (i < from <==> DepthBelow(pairs, answer[i], k))
    requires forall j :: from <= j < to ==> AtDepth(pairs, answer[j], k)
    requires to < |answer| ==> !AtDepth(pairs, answer[to], k)
    ensures to - from == |levels[k]| && multiset(answer[from..to]) == multiset(levels[k])
  {
    var slice := answer[from..to];
    assert forall i :: 0 <= i < |slice| ==> slice[i] == answer[from + i];
    forall x ensures x in slice <==> x in levels[k] {
      if x in levels[k] {
        assert HasDepth(pairs, x);
        var j :| 0 <= j < |answer| && answer[j] == x;
        AtDepthInSlice(pairs, answer, k, from, to, j);
        assert slice[j - from] == x;
      }
    }
    SameElementsSameCounts(slice, levels[k]);
  }

  // An item stands before the end of the slice of level k exactly when it is shallower than k + 1.
  lemma BeforeSliceEnd<T(!new)>(pairs: Pairs<T>, answer: seq<T>, k: nat, from: nat, to: nat, j: nat)
    requires AnswerOf(pairs, answer) && from <= to <= |answer| && j < |answer|
    requires forall i :: 0 <= i < |answer| ==> (i < from <==> DepthBelow(pairs, answer[i], k))
    requires forall i :: from <= i < to ==> AtDepth(pairs, answer[i], k)
    requires to < |answer| ==> !AtDepth(pairs, answer[to], k)
    ensures j < to <==> DepthBelow(pairs, answer[j], k + 1)
  {
    if j < from {
      var i: nat :| i < k && AtDepth(pairs, answer[j], i);
      assert i < k + 1;
    } else if DepthBelow(pairs, answer[j], k + 1) {
      var i: nat :| i < k + 1 && AtDepth(pairs, answer[j], i);
      AtDepthInSlice(pairs, answer, k, from, to, j);
    }
  }

  lemma NextSplit<T(!new)>(pairs: Pairs<T>, answer: seq<T>, levels: seq<seq<T>>, k: nat)
    requires AnswerOf(pairs, answer) && LevelsOf(pairs, levels)
    requires k < |levels| && SplitAt(pairs, answer, levels, k)
    ensures SplitAt(pairs, answer, levels, k + 1) && SliceIsLevel(answer, levels, k)
  {
    var from := Total(levels[..k]);
    var to := from;
    while to < |answer| && AtDepth(pairs, answer[to], k)
      invariant from <= to <= |answer|
      invariant forall j :: from <= j < to ==> AtDepth(pairs, answer[j], k)
      decreases |answer| - to
    {
      to := to + 1;
    }
    SliceHoldsLevel(pairs, answer, levels, k, from, to);
    assert levels[..k + 1][..k] == levels[..k];
    forall j | 0 <= j < |answer| ensures j < to <==> DepthBelow(pairs, answer[j], k + 1) {
      BeforeSliceEnd(pairs, answer, k, from, to, j);
    }
  }

  lemma {:induction false} AllSplits<T(!new)>(pairs: Pairs<T>, answer: seq<T>, levels: seq<seq<T>>, k: nat)
    requires AnswerOf(pairs, answer) && LevelsOf(pairs, levels) && k <= |levels|
    ensures SplitAt(pairs, answer, levels, k)
    ensures forall i :: 0 <= i < k ==> SliceIsLevel(answer, levels, i)
  {
    if k == 0 {
      assert levels[..0] == [];
    } else {
      AllSplits(pairs, answer, levels, k - 1);
      NextSplit(pairs, answer, levels, k - 1);
    }
  }

  // topsort's answer is the levels one after the other, up to the order within a level.
  lemma SortIsLevelsConcatenated<T(!new)>(pairs: Pairs<T>, answer: seq<T>, levels: seq<seq<T>>)
    requires AnswerOf(pairs, answer) && LevelsOf(pairs, levels)
    requires forall x, k: nat :: AtDepth(pairs, x, k) ==> k < |levels|
    ensures |answer| == Total(levels)
    ensures forall k :: 0 <= k < |levels| ==> SliceIsLevel(answer, levels, k)
  {
    AllSplits(pairs, answer, levels, |levels|);
    assert levels[..|levels|] == levels;
    if |answer| > 0 {
      var x := answer[|answer| - 1];
      assert x in answer;
      var m: nat :| AtDepth(pairs, x, m);
      assert DepthBelow(pairs, x, |levels|);
    }
  }
}
