// Cyclic lists: the rotation test of bindings/python/rad_util.py (lines 728-775).

module Sequences {

  datatype Option<+T> = None | Some(value: T)

  ghost predicate Distinct<T>(s: seq<T>) {
    forall i, j :: 0 <= i < j < |s| ==> s[i] != s[j]
  }

  function Elements<T>(s: seq<T>): (r: set<T>) {
    set x | x in s
  }

  // The position that Python's list.index finds: the first occurrence.
  function IndexOf<T(==)>(s: seq<T>, x: T): (i: nat)
    requires x in s
    ensures i < |s| && s[i] == x && x !in s[..i]
  {
    if s[0] == x then 0 else 1 + IndexOf(s[1..], x)
  }

  ghost predicate Ascending(at: seq<nat>) {
    forall k, m :: 0 <= k < m < |at| ==> at[k] < at[m]
  }

  lemma AscendingAppend(at: seq<nat>, n: nat)
    requires Ascending(at) && forall k :: 0 <= k < |at| ==> at[k] < n
    ensures Ascending(at + [n]) && forall i: nat :: i in at + [n] <==> i in at || i == n
  {
    assert (at + [n])[|at|] == n;
  }

  lemma {:induction false} DistinctCardinality<T>(s: seq<T>)
    requires Distinct(s)
    ensures |Elements(s)| == |s|
  {
    if s == [] {
      assert Elements(s) == {};
    } else {
      var n := |s| - 1;
      DistinctCardinality(s[..n]);
      assert s == s[..n] + [s[n]];
      assert Elements(s) == Elements(s[..n]) + {s[n]};
    }
  }

  lemma SubsetCardinality<T>(a: set<T>, b: set<T>)
    requires a <= b
    ensures |a| <= |b|
    ensures |a| == |b| ==> a == b
  {
    assert b == a + (b - a);
    assert |b| == |a| + |b - a|;
  }

  // A list without repetitions drawn from a finite set is no longer than the set.
  lemma DistinctBound<T>(s: seq<T>, universe: set<T>)
    requires Distinct(s) && Elements(s) <= universe
    ensures |s| <= |universe|
  {
    DistinctCardinality(s);
    SubsetCardinality(Elements(s), universe);
  }
}

module Rotation {
  import opened Sequences

  datatype Outcome = Answer(value: bool) | IndexError

  function Rotate<T>(s: seq<T>, k: nat): seq<T>
    requires k <= |s|
  {
    s[k..] + s[..k]
  }

  ghost predicate IsRotation<T>(a: seq<T>, b: seq<T>) {
    exists k :: 0 <= k <= |a| && Rotate(a, k) == b
  }

  lemma HeadOfRotation<T>(s: seq<T>, k: nat)
    requires k < |s|
    ensures Rotate(s, k)[0] == s[k]
  {
  }

  lemma FullRotation<T>(s: seq<T>)
    ensures Rotate(s, |s|) == Rotate(s, 0)
  {
    assert s[|s|..] == [] && s[..|s|] == s && s[0..] == s && s[..0] == [];
  }

  // is_rotated looks for the head of seq2 in seq1 and compares the wrapped slices; it reads
  // seq2[0] before anything else, so two empty lists raise IndexError.
  method IsRotated<T(==)>(seq1: seq<T>, seq2: seq<T>) returns (r: Outcome)
    ensures r.IndexError? <==> seq1 == [] && seq2 == []
    ensures r.Answer? ==> (r.value <==> IsRotation(seq1, seq2))
  {
    if |seq1| != |seq2| {
      return Answer(false);
    }
    var n := |seq1|;
    if n == 0 {
      return IndexError;
    }
    var startIndexes: seq<nat> := [];
    var headItem := seq2[0];
    for index := 0 to n
      invariant forall i :: i in startIndexes <==> 0 <= i < index && seq1[i] == headItem
    {
      if seq1[index] == headItem {
        startIndexes := startIndexes + [index];
      }
    }
    var doubleSeq := seq1 + seq1;
    for j := 0 to |startIndexes|
      invariant forall i :: 0 <= i < |startIndexes| ==> startIndexes[i] in startIndexes
      invariant forall i :: 0 <= i < j ==> Rotate(seq1, startIndexes[i]) != seq2
    {
      var index := startIndexes[j];
      assert index in startIndexes;
      assert doubleSeq[index..index + n] == Rotate(seq1, index);
      if doubleSeq[index..index + n] == seq2 {
        return Answer(true);
      }
    }
    forall k | 0 <= k < n ensures Rotate(seq1, k) != seq2 {
      HeadOfRotation(seq1, k);
      if seq1[k] == headItem {
        assert k in startIndexes;
        var i :| 0 <= i < |startIndexes| && startIndexes[i] == k;
      }
    }
    FullRotation(seq1);
    return Answer(false);
  }

  lemma RotateTwice<T>(s: seq<T>, j: nat, k: nat)
    requires j <= |s| && k <= |s|
    ensures Rotate(Rotate(s, j), k) == Rotate(s, if j + k <= |s| then j + k else j + k - |s|)
  {
    var r := Rotate(s, j);
    if j + k <= |s| {
      assert r[k..] == s[j + k..] + s[..j] && r[..k] == s[j..j + k];
      assert s[..j] + s[j..j + k] == s[..j + k];
    } else {
      var i := j + k - |s|;
      assert r[k..] == s[i..j] && r[..k] == s[j..] + s[..i];
      assert s[i..j] + s[j..] == s[i..];
    }
  }

  // Being a rotation is an equivalence, so "distinct up to rotation" is meaningful.
  lemma RotationReflexive<T>(a: seq<T>)
    ensures IsRotation(a, a)
  {
    assert Rotate(a, 0) == a;
  }

  lemma RotationSymmetric<T>(a: seq<T>, b: seq<T>)
    requires IsRotation(a, b)
    ensures IsRotation(b, a)
  {
    var k :| 0 <= k <= |a| && Rotate(a, k) == b;
    assert Rotate(b, |a| - k) == a;
  }

  lemma RotationTransitive<T>(a: seq<T>, b: seq<T>, c: seq<T>)
    requires IsRotation(a, b) && IsRotation(b, c)
    ensures IsRotation(a, c)
  {
    var j :| 0 <= j <= |a| && Rotate(a, j) == b;
    var k :| 0 <= k <= |b| && Rotate(b, k) == c;
    RotateTwice(a, j, k);
  }
}
