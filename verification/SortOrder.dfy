// Which orders topsort can answer with (bindings/python/topsort.py, lines 92-106): the order of the
// items without parents is up to the dict, everything else follows from it.

module SortOrder {
  import opened Sequences
  import opened Dependencies
  import opened Topsort

  // What topsort promises of the answer for pairs without a cycle.
  ghost predicate SortAnswer<T(!new)>(pairs: Pairs<T>, sorted: seq<T>) {
    && Distinct(sorted)
    && Elements(sorted) == Items(pairs)
    && ParentsFirst(pairs, sorted)
    && DepthOrdered(pairs, sorted)
    && KeyOrdered(pairs, sorted)
  }

  function Pos<T(==)>(s: seq<T>, x: T): (i: nat)
    requires x in Elements(s)
    ensures i < |s| && s[i] == x
  {
    IndexOf(s, x)
  }

  // ---------- Climbs ----------

  // From a root upwards; picks tells which child is taken, by its position in the list of children.
  predicate IsClimb<T(==)>(pairs: Pairs<T>, r: T, picks: seq<nat>)
    decreases |picks|, 1
  {
    picks == [] ||
    (IsClimb(pairs, r, picks[..|picks| - 1])
     && picks[|picks| - 1] < |Successors(pairs, Top(pairs, r, picks[..|picks| - 1]))|)
  }

  function Top<T(==)>(pairs: Pairs<T>, r: T, picks: seq<nat>): T
    requires IsClimb(pairs, r, picks)
    decreases |picks|, 2
  {
    if picks == [] then r
    else Successors(pairs, Top(pairs, r, picks[..|picks| - 1]))[picks[|picks| - 1]]
  }

  // A climb to x with as many steps as the longest walk to x.
  ghost predicate LongestClimb<T(!new)>(pairs: Pairs<T>, r: T, picks: seq<nat>, x: T) {
    && r in Items(pairs) && IsRoot(pairs, r)
    && IsClimb(pairs, r, picks) && Top(pairs, r, picks) == x
    && AtDepth(pairs, x, |picks|)
  }

  // The first different pick is smaller.
  predicate PicksLess(a: seq<nat>, b: seq<nat>)
    requires |a| == |b|
  {
    a != [] &&
    (PicksLess(a[..|a| - 1], b[..|b| - 1])
     || (a[..|a| - 1] == b[..|b| - 1] && a[|a| - 1] < b[|b| - 1]))
  }

  lemma {:induction false} PicksTotal(a: seq<nat>, b: seq<nat>)
    requires |a| == |b|
    ensures PicksLess(a, b) || PicksLess(b, a) || a == b
  {
    if a != [] {
      var n := |a| - 1;
      PicksTotal(a[..n], b[..n]);
      assert a == a[..n] + [a[n]] && b == b[..n] + [b[n]];
    }
  }

  lemma TopStep<T>(pairs: Pairs<T>, r: T, picks: seq<nat>)
    requires IsClimb(pairs, r, picks) && picks != []
    ensures (Top(pairs, r, picks[..|picks| - 1]), Top(pairs, r, picks)) in pairs
  {
    SuccessorIsPair(pairs, Top(pairs, r, picks[..|picks| - 1]), Top(pairs, r, picks));
  }

  lemma TopIsItem<T>(pairs: Pairs<T>, r: T, picks: seq<nat>)
    requires IsClimb(pairs, r, picks) && r in Items(pairs)
    ensures Top(pairs, r, picks) in Items(pairs)
  {
    if picks != [] {
      TopStep(pairs, r, picks);
      PairItems(pairs, Top(pairs, r, picks[..|picks| - 1]), Top(pairs, r, picks));
    }
  }

  // ---------- Keys ----------

  lemma LastPlace<T>(s: seq<T>, x: T) returns (i: nat)
    requires x in s
    ensures i < |s| && s[i] == x && x !in s[i + 1..]
  {
    i := |s| - 1;
    while s[i] != x
      invariant i < |s| && x in s[..i + 1] && x !in s[i + 1..]
      decreases i
    {
      assert s[..i + 1] == s[..i] + [s[i]];
      assert s[i..] == [s[i]] + s[i + 1..];
      i := i - 1;
    }
  }

  // The last parent of an item, and its last occurrence there.
  lemma KeyExists<T(!new)>(pairs: Pairs<T>, sorted: seq<T>, x: T) returns (key: Key)
    requires SortAnswer(pairs, sorted) && x in Items(pairs) && !IsRoot(pairs, x)
    ensures KeyOf(pairs, sorted, x, key)
  {
    var q :| (q, x) in pairs;
    PairItems(pairs, q, x);
    var i: nat := |sorted|;
    while i > 0 && (sorted[i - 1], x) !in pairs
      invariant i <= |sorted|
      invariant forall j: nat :: i <= j < |sorted| ==> (sorted[j], x) !in pairs
      decreases i
    {
      i := i - 1;
    }
    forall p | (p, x) in pairs ensures i > 0 && p in sorted[..i] {
      PairItems(pairs, p, x);
      assert sorted[Pos(sorted, p)] == p;
    }
    SuccessorIsPair(pairs, sorted[i - 1], x);
    var n := LastPlace(Successors(pairs, sorted[i - 1]), x);
    key := Key(i - 1, n);
  }

  lemma NotAfter<T>(s: seq<T>, x: T, i: nat, j: nat)
    requires i < |s| && x !in s[i + 1..] && j < |s| && s[j] == x
    ensures j <= i
  {
  }

  // An occurrence as a child is not later than the key says.
  lemma KeyIsLast<T(!new)>(pairs: Pairs<T>, sorted: seq<T>, x: T, key: Key, p: T, n: nat)
    requires Distinct(sorted) && KeyOf(pairs, sorted, x, key)
    requires p in Elements(sorted) && n < |Successors(pairs, p)| && Successors(pairs, p)[n] == x
    ensures Key(Pos(sorted, p), n) == key || Earlier(Key(Pos(sorted, p), n), key)
  {
    SuccessorIsPair(pairs, p, x);
    assert p in sorted[..key.parent + 1];
    if Pos(sorted, p) == key.parent {
      NotAfter(Successors(pairs, p), x, key.child, n);
    }
  }

  lemma KeyDecides<T(!new)>(pairs: Pairs<T>, sorted: seq<T>, x: T, y: T, a: Key, b: Key)
    requires SortAnswer(pairs, sorted) && x in Items(pairs) && y in Items(pairs)
    requires KeyOf(pairs, sorted, x, a) && KeyOf(pairs, sorted, y, b) && Earlier(a, b)
    ensures Pos(sorted, x) < Pos(sorted, y)
  {
    assert KeyOf(pairs, sorted, sorted[Pos(sorted, x)], a);
    assert KeyOf(pairs, sorted, sorted[Pos(sorted, y)], b);
  }

  // ---------- The climb along last parents ----------

  ghost predicate LastClimb<T(!new)>(pairs: Pairs<T>, sorted: seq<T>, r: T, picks: seq<nat>)
    requires r in Items(pairs) && IsClimb(pairs, r, picks) && Elements(sorted) == Items(pairs)
    decreases |picks|
  {
    picks == [] ||
    (var n := |picks| - 1;
     TopIsItem(pairs, r, picks[..n]);
     && LastClimb(pairs, sorted, r, picks[..n])
     && KeyOf(pairs, sorted, Top(pairs, r, picks), Key(Pos(sorted, Top(pairs, r, picks[..n])), picks[n])))
  }

  // The last parent lies exactly one level up.
  lemma LastParentDepth<T(!new)>(pairs: Pairs<T>, sorted: seq<T>, x: T, key: Key, k: nat)
    requires SortAnswer(pairs, sorted) && x in Items(pairs) && KeyOf(pairs, sorted, x, key)
    requires AtDepth(pairs, sorted[key.parent], k) && !Cyclic(pairs)
    ensures AtDepth(pairs, x, k + 1)
  {
    forall p | (p, x) in pairs ensures DepthBelow(pairs, p, k + 1) {
      PairItems(pairs, p, x);
      var i :| 0 <= i < key.parent + 1 && sorted[i] == p;
      AcyclicHasDepth(pairs, p);
      var j: nat :| AtDepth(pairs, p, j);
      if i == key.parent { DepthUnique(pairs, p, j, k); }
    }
    SuccessorIsPair(pairs, sorted[key.parent], x);
    DepthFromParents(pairs, x, k + 1);
  }

  lemma ParentEarlier<T(!new)>(pairs: Pairs<T>, sorted: seq<T>, p: T, x: T)
    requires SortAnswer(pairs, sorted) && (p, x) in pairs && p in Elements(sorted) && x in Elements(sorted)
    ensures Pos(sorted, p) < Pos(sorted, x)
  {
    assert p in sorted[..Pos(sorted, x)];
  }

  lemma LastClimbStep<T(!new)>(pairs: Pairs<T>, sorted: seq<T>, x: T, key: Key, r: T, before: seq<nat>)
    requires SortAnswer(pairs, sorted) && x in Items(pairs) && KeyOf(pairs, sorted, x, key)
    requires !Cyclic(pairs)
    requires LongestClimb(pairs, r, before, sorted[key.parent]) && LastClimb(pairs, sorted, r, before)
    ensures var picks := before + [key.child as nat];
            LongestClimb(pairs, r, picks, x) && LastClimb(pairs, sorted, r, picks)
  {
    var picks := before + [key.child as nat];
    assert picks[..|picks| - 1] == before;
    assert sorted[key.parent] in Elements(sorted);
    assert Pos(sorted, sorted[key.parent]) == key.parent;
    LastParentDepth(pairs, sorted, x, key, |before|);
  }

  lemma {:induction false} LastClimbExists<T(!new)>(pairs: Pairs<T>, sorted: seq<T>, x: T)
    returns (r: T, picks: seq<nat>)
    requires !Cyclic(pairs) && SortAnswer(pairs, sorted) && x in Items(pairs)
    ensures LongestClimb(pairs, r, picks, x) && LastClimb(pairs, sorted, r, picks)
    decreases Pos(sorted, x)
  {
    if IsRoot(pairs, x) {
      r, picks := x, [];
      DepthFromParents(pairs, x, 0);
    } else {
      var key := KeyExists(pairs, sorted, x);
      var p := sorted[key.parent];
      assert p in Elements(sorted);
      SuccessorIsPair(pairs, p, x);
      ParentEarlier(pairs, sorted, p, x);
      var before;
      r, before := LastClimbExists(pairs, sorted, p);
      picks := before + [key.child as nat];
      LastClimbStep(pairs, sorted, x, key, r, before);
    }
  }

  // The climb along last parents decides: a climb of the same height that starts later, or starts at
  // the same root and takes a later child first, ends at a later item.
  lemma {:induction false} ClimbDecides<T(!new)>(pairs: Pairs<T>, sorted: seq<T>, r: T, picks: seq<nat>,
                                                 s: T, others: seq<nat>)
    requires SortAnswer(pairs, sorted) && r in Items(pairs) && s in Items(pairs)
    requires IsClimb(pairs, r, picks) && IsClimb(pairs, s, others) && LastClimb(pairs, sorted, r, picks)
    requires |picks| == |others|
    requires Pos(sorted, r) < Pos(sorted, s) || (r == s && PicksLess(picks, others))
    ensures Top(pairs, r, picks) in Items(pairs) && Top(pairs, s, others) in Items(pairs)
    ensures Pos(sorted, Top(pairs, r, picks)) < Pos(sorted, Top(pairs, s, others))
    decreases |picks|
  {
    TopIsItem(pairs, r, picks);
    TopIsItem(pairs, s, others);
    if picks != [] {
      var n := |picks| - 1;
      var x, y := Top(pairs, r, picks), Top(pairs, s, others);
      var p, q := Top(pairs, r, picks[..n]), Top(pairs, s, others[..n]);
      TopIsItem(pairs, r, picks[..n]);
      TopIsItem(pairs, s, others[..n]);
      if Pos(sorted, r) < Pos(sorted, s) || PicksLess(picks[..n], others[..n]) {
        ClimbDecides(pairs, sorted, r, picks[..n], s, others[..n]);
      }
      TopStep(pairs, s, others);
      var key := KeyExists(pairs, sorted, y);
      KeyIsLast(pairs, sorted, y, key, q, others[n]);
      KeyDecides(pairs, sorted, x, y, Key(Pos(sorted, p), picks[n]), key);
    }
  }

  // ---------- Every order of the roots has an answer ----------

  ghost predicate Complete<T(!new)>(pairs: Pairs<T>, done: seq<T>, x: T) {
    x in Items(pairs) && forall p :: (p, x) in pairs ==> p in done
  }

  // The first n children of answer[i] have been looked at.
  ghost predicate KeyBefore<T(!new)>(pairs: Pairs<T>, answer: seq<T>, i: nat, n: nat, x: T) {
    exists m: nat :: m < n && KeyOf(pairs, answer, x, Key(i, m))
  }

  // The answer holds what is complete after its first i items, and the children of the next one that
  // are complete with it, as far as they have been looked at.
  ghost predicate Grown<T(!new)>(pairs: Pairs<T>, answer: seq<T>, depths: seq<nat>, keys: seq<Key>, i: nat, n: nat) {
    && Progress(pairs, answer, depths, i)
    && Keyed(pairs, answer, keys, Key(i, n))
    && forall x :: x in answer <==> Complete(pairs, answer[..i], x) || KeyBefore(pairs, answer, i, n, x)
  }

  lemma KeyBeforeGrows<T(!new)>(pairs: Pairs<T>, answer: seq<T>, more: seq<T>, i: nat, n: nat, x: T)
    requires answer <= more && i < |answer|
    ensures KeyBefore(pairs, answer, i, n, x) <==> KeyBefore(pairs, more, i, n, x)
  {
    assert more[..i + 1] == answer[..i + 1] && more[i] == answer[i];
    if KeyBefore(pairs, answer, i, n, x) {
      var m: nat :| m < n && KeyOf(pairs, answer, x, Key(i, m));
      assert KeyOf(pairs, more, x, Key(i, m));
    }
    if KeyBefore(pairs, more, i, n, x) {
      var m: nat :| m < n && KeyOf(pairs, more, x, Key(i, m));
      assert KeyOf(pairs, answer, x, Key(i, m));
    }
  }

  // A child that is complete with answer[i] is not in the answer before its last occurrence.
  lemma KeyIsNew<T(!new)>(pairs: Pairs<T>, answer: seq<T>, depths: seq<nat>, keys: seq<Key>, i: nat, n: nat, c: T)
    requires Grown(pairs, answer, depths, keys, i, n) && KeyOf(pairs, answer, c, Key(i, n))
    ensures c !in answer
  {
    SuccessorIsPair(pairs, answer[i], c);
    assert answer[i] !in answer[..i];
    var cs := Successors(pairs, answer[i]);
    forall m: nat | m < n ensures !KeyOf(pairs, answer, c, Key(i, m)) {
      assert cs[m + 1..][n - m - 1] == c;
    }
  }

  lemma KeyBeforeStep<T(!new)>(pairs: Pairs<T>, answer: seq<T>, i: nat, n: nat, x: T)
    ensures KeyBefore(pairs, answer, i, n + 1, x) <==>
              KeyBefore(pairs, answer, i, n, x) || KeyOf(pairs, answer, x, Key(i, n))
  {
    if KeyBefore(pairs, answer, i, n + 1, x) {
      var m: nat :| m < n + 1 && KeyOf(pairs, answer, x, Key(i, m));
    }
    if KeyBefore(pairs, answer, i, n, x) {
      var m: nat :| m < n && KeyOf(pairs, answer, x, Key(i, m));
    }
  }

  lemma GrowByKey<T(!new)>(pairs: Pairs<T>, answer: seq<T>, depths: seq<nat>, keys: seq<Key>, i: nat, n: nat, c: T)
    requires Grown(pairs, answer, depths, keys, i, n) && KeyOf(pairs, answer, c, Key(i, n))
    ensures Grown(pairs, answer + [c], depths + [depths[i] + 1], keys + [Key(i, n)], i, n + 1)
  {
    var more := answer + [c];
    KeyIsNew(pairs, answer, depths, keys, i, n, c);
    SuccessorIsPair(pairs, answer[i], c);
    AppendChild(pairs, answer, depths, i, c);
    KeyAppend(pairs, answer, keys, i, n, c);
    assert more[..i] == answer[..i];
    forall x ensures x in more <==> Complete(pairs, more[..i], x) || KeyBefore(pairs, more, i, n + 1, x) {
      KeyBeforeStep(pairs, answer, i, n, x);
      KeyBeforeGrows(pairs, answer, more, i, n + 1, x);
      if KeyOf(pairs, answer, x, Key(i, n)) { assert x == c; }
    }
  }

  lemma GrowPast<T(!new)>(pairs: Pairs<T>, answer: seq<T>, depths: seq<nat>, keys: seq<Key>, i: nat, n: nat)
    requires Grown(pairs, answer, depths, keys, i, n) && i < |answer| && n < |Successors(pairs, answer[i])|
    requires !KeyOf(pairs, answer, Successors(pairs, answer[i])[n], Key(i, n))
    ensures Grown(pairs, answer, depths, keys, i, n + 1)
  {
    KeysWait(pairs, answer, keys, Key(i, n), Key(i, n + 1));
    forall x ensures KeyBefore(pairs, answer, i, n + 1, x) <==> KeyBefore(pairs, answer, i, n, x) {
      KeyBeforeStep(pairs, answer, i, n, x);
    }
  }

  lemma CompletedWith<T(!new)>(pairs: Pairs<T>, answer: seq<T>, i: nat, x: T)
    requires i < |answer|
    ensures Complete(pairs, answer[..i + 1], x) <==>
              Complete(pairs, answer[..i], x) || KeyBefore(pairs, answer, i, |Successors(pairs, answer[i])|, x)
  {
    assert answer[..i + 1] == answer[..i] + [answer[i]];
    if Complete(pairs, answer[..i + 1], x) && !Complete(pairs, answer[..i], x) {
      SuccessorIsPair(pairs, answer[i], x);
      var m := LastPlace(Successors(pairs, answer[i]), x);
      assert KeyOf(pairs, answer, x, Key(i, m));
    }
    if KeyBefore(pairs, answer, i, |Successors(pairs, answer[i])|, x) {
      var m: nat :| m < |Successors(pairs, answer[i])| && KeyOf(pairs, answer, x, Key(i, m));
      SuccessorIsPair(pairs, answer[i], x);
      PairItems(pairs, answer[i], x);
    }
  }

  lemma NextParent<T(!new)>(pairs: Pairs<T>, answer: seq<T>, depths: seq<nat>, keys: seq<Key>, i: nat)
    requires i < |answer| && Grown(pairs, answer, depths, keys, i, |Successors(pairs, answer[i])|)
    ensures Grown(pairs, answer, depths, keys, i + 1, 0)
  {
    DepthAdvance(pairs, answer, depths, i);
    KeysWait(pairs, answer, keys, Key(i, |Successors(pairs, answer[i])|), Key(i + 1, 0));
    forall x ensures x in answer <==> Complete(pairs, answer[..i + 1], x) {
      CompletedWith(pairs, answer, i, x);
    }
  }

  // All children of one item.
  lemma GrowChildren<T(!new)>(pairs: Pairs<T>, answer0: seq<T>, depths0: seq<nat>, keys0: seq<Key>, i: nat)
    returns (answer: seq<T>, depths: seq<nat>, keys: seq<Key>)
    requires i < |answer0| && Grown(pairs, answer0, depths0, keys0, i, 0)
    ensures answer0 <= answer && Grown(pairs, answer, depths, keys, i + 1, 0)
  {
    answer, depths, keys := answer0, depths0, keys0;
    var cs := Successors(pairs, answer0[i]);
    var n := 0;
    while n < |cs|
      invariant n <= |cs| && answer0 <= answer && Grown(pairs, answer, depths, keys, i, n)
    {
      assert answer[i] == answer0[i];
      if KeyOf(pairs, answer, cs[n], Key(i, n)) {
        GrowByKey(pairs, answer, depths, keys, i, n, cs[n]);
        answer, depths, keys := answer + [cs[n]], depths + [depths[i] + 1], keys + [Key(i, n)];
      } else {
        GrowPast(pairs, answer, depths, keys, i, n);
      }
      n := n + 1;
    }
    assert answer[i] == answer0[i];
    NextParent(pairs, answer, depths, keys, i);
  }

  lemma GrowFromRoots<T(!new)>(pairs: Pairs<T>, roots: seq<T>) returns (depths: seq<nat>, keys: seq<Key>)
    requires RootsListed(pairs, roots)
    ensures Grown(pairs, roots, depths, keys, 0, 0)
  {
    depths := seq(|roots|, _ => 0);
    keys := InitialKeys(pairs, roots);
    forall j | 0 <= j < |roots| ensures AtDepth(pairs, roots[j], 0) && IsRoot(pairs, roots[j]) {
      assert roots[j] in roots;
      DepthFromParents(pairs, roots[j], 0);
    }
    assert roots[..0] == [];
  }

  lemma GrownWithin<T(!new)>(pairs: Pairs<T>, answer: seq<T>, depths: seq<nat>, keys: seq<Key>, i: nat)
    requires Grown(pairs, answer, depths, keys, i, 0)
    ensures |answer| <= |Items(pairs)|
  {
    forall x | x in answer ensures x in Items(pairs) { }
    DistinctBound(answer, Items(pairs));
  }

  lemma FullyGrown<T(!new)>(pairs: Pairs<T>, answer: seq<T>, depths: seq<nat>, keys: seq<Key>)
    requires !Cyclic(pairs) && Grown(pairs, answer, depths, keys, |answer|, 0)
    ensures SortAnswer(pairs, answer)
  {
    assert answer[..|answer|] == answer;
    var stuck := Items(pairs) - Elements(answer);
    forall x | x in stuck ensures HasParentIn(pairs, stuck, x) {
      var p :| (p, x) in pairs && p !in answer;
      PairItems(pairs, p, x);
    }
    if stuck != {} { StuckMeansCyclic(pairs, stuck); }
    assert stuck == {};
    forall x ensures x in Elements(answer) <==> x in Items(pairs) {
      assert x in Elements(answer) <==> x in answer;
      assert x !in stuck;
    }
    DepthListOrdered(pairs, answer, depths);
    KeyedIsOrdered(pairs, answer, keys, Key(|answer|, 0));
  }

  // Whatever the order in which the dict lists the items without parents, there is an answer that
  // starts with them in that order ...
  lemma AnswerForRoots<T(!new)>(pairs: Pairs<T>, roots: seq<T>) returns (sorted: seq<T>)
    requires !Cyclic(pairs) && RootsListed(pairs, roots)
    ensures roots <= sorted && SortAnswer(pairs, sorted)
  {
    var depths, keys := GrowFromRoots(pairs, roots);
    sorted := roots;
    var i := 0;
    while i < |sorted|
      invariant i <= |sorted| && roots <= sorted && Grown(pairs, sorted, depths, keys, i, 0)
      decreases |Items(pairs)| - i
    {
      GrownWithin(pairs, sorted, depths, keys, i);
      sorted, depths, keys := GrowChildren(pairs, sorted, depths, keys, i);
      i := i + 1;
    }
    FullyGrown(pairs, sorted, depths, keys);
  }

  // The key of an item in one answer is its key in another one with the same items up to there.
  lemma SharedKey<T(!new)>(pairs: Pairs<T>, s: seq<T>, t: seq<T>, n: nat, x: T) returns (key: Key)
    requires SortAnswer(pairs, s) && n < |s| == |t| && s[..n] == t[..n]
    requires x == s[n] && x in Items(pairs) && !IsRoot(pairs, x)
    ensures KeyOf(pairs, s, x, key) && KeyOf(pairs, t, x, key)
  {
    key := KeyExists(pairs, s, x);
    SuccessorIsPair(pairs, s[key.parent], x);
    assert s[key.parent] in s[..n];
    var j :| 0 <= j < n && s[j] == s[key.parent];
    assert s[..n][..key.parent + 1] == s[..key.parent + 1] && t[..n][..key.parent + 1] == t[..key.parent + 1];
    assert s[..n][key.parent] == t[..n][key.parent];
  }

  lemma NotARoot<T(!new)>(pairs: Pairs<T>, roots: seq<T>, s: seq<T>, n: nat)
    requires RootsListed(pairs, roots) && roots <= s && |roots| <= n < |s| && SortAnswer(pairs, s)
    ensures s[n] in Items(pairs) && !IsRoot(pairs, s[n])
  {
    assert s[n] in Elements(s);
    assert s[n] !in roots by {
      forall j | 0 <= j < |roots| ensures roots[j] != s[n] { assert roots[j] == s[j]; }
    }
  }

  lemma NextIsFirst<T>(s: seq<T>, t: seq<T>, n: nat)
    requires Distinct(s) && Distinct(t) && n < |s| == |t| && s[..n] == t[..n] && s[n] != t[n]
    requires t[n] in Elements(s)
    ensures Pos(s, s[n]) < Pos(s, t[n])
  {
    var j := Pos(s, t[n]);
    assert Pos(s, s[n]) == n;
    forall i | 0 <= i < n ensures s[i] != t[n] { assert s[..n][i] == t[..n][i]; }
  }

  lemma NotEarlier<T(!new)>(pairs: Pairs<T>, s: seq<T>, t: seq<T>, n: nat, a: Key, b: Key)
    requires SortAnswer(pairs, s) && SortAnswer(pairs, t) && n < |s| == |t| && s[..n] == t[..n] && s[n] != t[n]
    requires KeyOf(pairs, t, s[n], a) && KeyOf(pairs, t, t[n], b)
    ensures !Earlier(a, b)
  {
    assert s[n] in Elements(s) && t[n] in Elements(t);
    NextIsFirst(t, s, n);
    if Earlier(a, b) { KeyDecides(pairs, t, s[n], t[n], a, b); }
  }

  lemma SameNext<T(!new)>(pairs: Pairs<T>, roots: seq<T>, s: seq<T>, t: seq<T>, n: nat)
    requires RootsListed(pairs, roots) && roots <= s && roots <= t && |roots| <= n < |s| == |t|
    requires SortAnswer(pairs, s) && SortAnswer(pairs, t) && s[..n] == t[..n]
    ensures s[n] == t[n]
  {
    NotARoot(pairs, roots, s, n);
    NotARoot(pairs, roots, t, n);
    var a := SharedKey(pairs, s, t, n, s[n]);
    var b := SharedKey(pairs, t, s, n, t[n]);
    if s[n] != t[n] {
      NotEarlier(pairs, s, t, n, a, b);
      NotEarlier(pairs, t, s, n, b, a);
    }
  }

  lemma EarlierIsRoot<T(!new)>(pairs: Pairs<T>, s: seq<T>, i: nat, j: nat)
    requires !Cyclic(pairs) && SortAnswer(pairs, s) && i <= j < |s| && IsRoot(pairs, s[j])
    ensures IsRoot(pairs, s[i])
  {
    assert s[i] in Elements(s) && s[j] in Elements(s);
    DepthFromParents(pairs, s[j], 0);
    AcyclicHasDepth(pairs, s[i]);
    var k: nat :| AtDepth(pairs, s[i], k);
    if i < j { assert k <= 0; } else { DepthUnique(pairs, s[i], k, 0); }
    forall p ensures (p, s[i]) !in pairs {
      if (p, s[i]) in pairs {
        PairItems(pairs, p, s[i]);
        HasWalkZero(pairs, p);
        HasWalkStep(pairs, p, s[i], 0);
      }
    }
  }

  // Every answer starts with the items without parents.
  lemma RootsComeFirst<T(!new)>(pairs: Pairs<T>, s: seq<T>) returns (n: nat)
    requires !Cyclic(pairs) && SortAnswer(pairs, s)
    ensures n <= |s| && RootsListed(pairs, s[..n])
  {
    n := 0;
    while n < |s| && IsRoot(pairs, s[n])
      invariant n <= |s| && forall i :: 0 <= i < n ==> IsRoot(pairs, s[i])
      decreases |s| - n
    {
      n := n + 1;
    }
    forall j: nat | n <= j < |s| ensures !IsRoot(pairs, s[j]) {
      if IsRoot(pairs, s[j]) { EarlierIsRoot(pairs, s, n, j); }
    }
    forall x ensures x in s[..n] <==> x in Items(pairs) && IsRoot(pairs, x) {
      if x in Items(pairs) && IsRoot(pairs, x) { assert s[Pos(s, x)] == x; }
      if x in s[..n] { assert x in Elements(s); }
    }
  }

  lemma {:induction false} SameUpTo<T(!new)>(pairs: Pairs<T>, roots: seq<T>, s: seq<T>, t: seq<T>, n: nat)
    requires RootsListed(pairs, roots) && roots <= s && roots <= t && |roots| <= n <= |s| == |t|
    requires SortAnswer(pairs, s) && SortAnswer(pairs, t)
    ensures s[..n] == t[..n]
  {
    if n == |roots| {
      assert s[..n] == roots == t[..n];
    } else {
      SameUpTo(pairs, roots, s, t, n - 1);
      SameNext(pairs, roots, s, t, n - 1);
      assert s[..n] == s[..n - 1] + [s[n - 1]] && t[..n] == t[..n - 1] + [t[n - 1]];
    }
  }

  // ... and only one.
  lemma AnswerIsUnique<T(!new)>(pairs: Pairs<T>, roots: seq<T>, s: seq<T>, t: seq<T>)
    requires RootsListed(pairs, roots) && roots <= s && roots <= t
    requires SortAnswer(pairs, s) && SortAnswer(pairs, t)
    ensures s == t
  {
    DistinctCardinality(s);
    DistinctCardinality(t);
    SameUpTo(pairs, roots, s, t, |s|);
    assert s[..|s|] == s && t[..|s|] == t;
  }
}
