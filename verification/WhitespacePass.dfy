// What remove_trailing_whitespace_changes of utils/check-style.py (lines 269-288, 420-436) does to
// the lines of a chunk, on values. The methods on line objects are in PatchObjects.dfy.

module WhitespacePass {
  import opened Sequences
  import opened PatchText

  predicate Blank(c: char) { c == ' ' || c == '\t' }

  // The positions of the source and of the destination lines.
  function SrcAt(lines: seq<Line>): (r: seq<nat>)
    ensures forall k :: 0 <= k < |r| ==> r[k] < |lines| && lines[r[k]].IsSrc()
  {
    if lines == [] then []
    else SrcAt(lines[..|lines| - 1]) + if lines[|lines| - 1].IsSrc() then [|lines| - 1] else []
  }

  function DstAt(lines: seq<Line>): (r: seq<nat>)
    ensures forall k :: 0 <= k < |r| ==> r[k] < |lines| && lines[r[k]].IsDst()
  {
    if lines == [] then []
    else DstAt(lines[..|lines| - 1]) + if lines[|lines| - 1].IsDst() then [|lines| - 1] else []
  }

  lemma {:induction false} SrcIncreasing(lines: seq<Line>, k: nat, m: nat)
    requires k < m < |SrcAt(lines)|
    ensures SrcAt(lines)[k] < SrcAt(lines)[m]
  {
    var n := |lines| - 1;
    if m < |SrcAt(lines[..n])| { SrcIncreasing(lines[..n], k, m); }
  }

  lemma {:induction false} DstIncreasing(lines: seq<Line>, k: nat, m: nat)
    requires k < m < |DstAt(lines)|
    ensures DstAt(lines)[k] < DstAt(lines)[m]
  {
    var n := |lines| - 1;
    if m < |DstAt(lines[..n])| { DstIncreasing(lines[..n], k, m); }
  }

  // The source lines are the removed and the shared ones, in order; the destination lines are the added and
  // the shared ones.
  lemma {:induction false} SrcInOrder(lines: seq<Line>)
    ensures Ascending(SrcAt(lines))
    ensures forall i: nat :: i in SrcAt(lines) <==> i < |lines| && lines[i].kind in [Src, Both]
  {
    if lines != [] {
      var n := |lines| - 1;
      SrcInOrder(lines[..n]);
      AscendingAppend(SrcAt(lines[..n]), n);
    }
  }

  lemma {:induction false} DstInOrder(lines: seq<Line>)
    ensures Ascending(DstAt(lines))
    ensures forall i: nat :: i in DstAt(lines) <==> i < |lines| && lines[i].kind in [Dst, Both]
  {
    if lines != [] {
      var n := |lines| - 1;
      DstInOrder(lines[..n]);
      AscendingAppend(DstAt(lines[..n]), n);
    }
  }

  lemma {:induction false} PositionsCounted(lines: seq<Line>)
    ensures |SrcAt(lines)| == SrcLen(lines) && |DstAt(lines)| == DstLen(lines)
  {
    if lines != [] { PositionsCounted(lines[..|lines| - 1]); }
  }

  // A destination line is listed once.
  lemma DstIsNew(lines: seq<Line>, k: nat)
    requires k < |DstAt(lines)|
    ensures DstAt(lines)[k] !in DstAt(lines)[..k]
  {
    forall j | 0 <= j < k ensures DstAt(lines)[j] != DstAt(lines)[k] { DstIncreasing(lines, j, k); }
  }

  // ^(.*)([ \t]+)$ takes one blank or tab into its second group, whatever precedes it.
  predicate OneBlankApart(s: string, d: string) {
    s != [] && Blank(s[|s| - 1]) && s[..|s| - 1] == d
  }

  // One blank apart is one space or one tab apart.
  lemma ApartMeans(s: string, d: string)
    ensures OneBlankApart(s, d) <==> s == d + " " || s == d + "\t"
  {
    if OneBlankApart(s, d) { assert s == d + [s[|s| - 1]]; }
    if s == d + " " || s == d + "\t" { assert s[..|s| - 1] == d; }
  }

  function FixPair(lines: seq<Line>, i: nat, j: nat): (r: seq<Line>)
    requires i < |lines| && j < |lines|
    ensures |r| == |lines|
  {
    var s := lines[i].text;
    if OneBlankApart(s, lines[j].text)
    then lines[j := lines[j].(text := lines[j].text + [s[|s| - 1]])]
    else lines
  }

  function Pairs(lines: seq<Line>): nat {
    if |SrcAt(lines)| <= |DstAt(lines)| then |SrcAt(lines)| else |DstAt(lines)|
  }

  // The lines after the first k pairs have been compared.
  function FixUpTo(lines: seq<Line>, k: nat): (r: seq<Line>)
    requires k <= Pairs(lines)
    ensures |r| == |lines|
  {
    if k == 0 then lines
    else FixPair(FixUpTo(lines, k - 1), SrcAt(lines)[k - 1], DstAt(lines)[k - 1])
  }

  function Fixed(lines: seq<Line>): (r: seq<Line>)
    ensures |r| == |lines|
  {
    FixUpTo(lines, Pairs(lines))
  }

  // dst[i] runs out of range when a chunk has fewer destination than source lines.
  predicate Complete(lines: seq<Line>) {
    |SrcAt(lines)| <= |DstAt(lines)|
  }

  // ---------- Only one blank or tab is ever appended ----------

  ghost predicate SameKinds(a: seq<Line>, b: seq<Line>) {
    |a| == |b| && forall i :: 0 <= i < |a| ==> a[i].kind == b[i].kind
  }

  ghost predicate Appended(a: Line, b: Line) {
    b.kind == a.kind && (b.text == a.text || exists c :: Blank(c) && b.text == a.text + [c])
  }

  lemma FixPairAppends(lines: seq<Line>, i: nat, j: nat)
    requires i < |lines| && j < |lines|
    ensures Appended(lines[j], FixPair(lines, i, j)[j])
    ensures forall m :: 0 <= m < |lines| && m != j ==> FixPair(lines, i, j)[m] == lines[m]
  {
  }

  // After k pairs a line has changed only if it is one of the first k destination lines.
  lemma {:induction false} LineSoFar(lines: seq<Line>, k: nat, i: nat)
    requires k <= Pairs(lines) && i < |lines|
    ensures Appended(lines[i], FixUpTo(lines, k)[i])
    ensures i !in DstAt(lines)[..k] ==> FixUpTo(lines, k)[i] == lines[i]
  {
    if k > 0 {
      LineSoFar(lines, k - 1, i);
      var j := DstAt(lines)[k - 1];
      FixPairAppends(FixUpTo(lines, k - 1), SrcAt(lines)[k - 1], j);
      DstIsNew(lines, k - 1);
      assert DstAt(lines)[..k] == DstAt(lines)[..k - 1] + [j];
    }
  }

  lemma OnlyBlanksAppended(lines: seq<Line>)
    ensures SameKinds(lines, Fixed(lines))
    ensures forall i :: 0 <= i < |lines| ==> Appended(lines[i], Fixed(lines)[i])
    ensures forall i :: 0 <= i < |lines| && lines[i].kind == Src ==> Fixed(lines)[i] == lines[i]
    ensures forall i :: 0 <= i < |lines| && i !in DstAt(lines)[..Pairs(lines)] ==> Fixed(lines)[i] == lines[i]
  {
    forall i | 0 <= i < |lines|
      ensures Appended(lines[i], Fixed(lines)[i]) && (lines[i].kind == Src ==> Fixed(lines)[i] == lines[i])
      ensures i !in DstAt(lines)[..Pairs(lines)] ==> Fixed(lines)[i] == lines[i]
    {
      LineSoFar(lines, Pairs(lines), i);
      if lines[i].kind == Src { assert i !in DstAt(lines)[..Pairs(lines)]; }
    }
  }

  lemma {:induction false} SameKindsSamePositions(a: seq<Line>, b: seq<Line>)
    requires SameKinds(a, b)
    ensures SrcAt(a) == SrcAt(b) && DstAt(a) == DstAt(b)
    ensures SrcLen(a) == SrcLen(b) && DstLen(a) == DstLen(b)
  {
    if a != [] { SameKindsSamePositions(a[..|a| - 1], b[..|b| - 1]); }
  }

  // The pass leaves the printed chunk header as it was.
  lemma HeaderKept(c: Chunk)
    ensures WriteChunk(c.(lines := Fixed(c.lines)))[0] == WriteChunk(c)[0]
  {
    OnlyBlanksAppended(c.lines);
    SameKindsSamePositions(c.lines, Fixed(c.lines));
  }

  // ---------- What every compared line becomes ----------

  function Gained(s: string, d: string): string {
    if OneBlankApart(s, d) then d + [s[|s| - 1]] else d
  }

  lemma GainedMeans(s: string, d: string)
    ensures Gained(s, d) == if s == d + " " || s == d + "\t" then s else d
  {
    ApartMeans(s, d);
  }

  // The place of a shared source line among the destination lines.
  function DstPlace(lines: seq<Line>, k: nat): nat
    requires k < |SrcAt(lines)|
  {
    |DstAt(lines[..SrcAt(lines)[k]])|
  }

  // The text the k-th source line has when it is compared: a shared line may have been compared before,
  // as a destination line.
  function ComparedText(lines: seq<Line>, k: nat): string
    requires k < Pairs(lines)
  {
    var l, j := lines[SrcAt(lines)[k]], DstPlace(lines, k);
    if l.kind == Both && j < k && ComparedText(lines, j) in [l.text + " ", l.text + "\t"] then ComparedText(lines, j)
    else l.text
  }

  lemma ComparedTextGains(lines: seq<Line>, k: nat)
    requires k < Pairs(lines)
    ensures var l, j := lines[SrcAt(lines)[k]], DstPlace(lines, k);
            ComparedText(lines, k) ==
              if l.kind == Both && j < k then Gained(ComparedText(lines, j), l.text) else l.text
  {
    var l, j := lines[SrcAt(lines)[k]], DstPlace(lines, k);
    if l.kind == Both && j < k { GainedMeans(ComparedText(lines, j), l.text); }
  }

  lemma {:induction false} PlaceAmongDst(lines: seq<Line>, i: nat)
    requires i < |lines| && lines[i].IsDst()
    ensures |DstAt(lines[..i])| < |DstAt(lines)| && DstAt(lines)[|DstAt(lines[..i])|] == i
  {
    var n := |lines| - 1;
    if i < n {
      PlaceAmongDst(lines[..n], i);
      assert lines[..n][..i] == lines[..i];
    }
  }

  lemma GainsNow(lines: seq<Line>, k: nat, s: string)
    requires k < Pairs(lines) && FixUpTo(lines, k)[SrcAt(lines)[k]].text == s
    ensures var l := lines[DstAt(lines)[k]]; FixUpTo(lines, k + 1)[DstAt(lines)[k]] == l.(text := Gained(s, l.text))
  {
    LineSoFar(lines, k, DstAt(lines)[k]);
    DstIsNew(lines, k);
  }

  lemma LaterPairKeeps(lines: seq<Line>, k: nat, n: nat)
    requires k < n < Pairs(lines)
    ensures FixUpTo(lines, n + 1)[DstAt(lines)[k]] == FixUpTo(lines, n)[DstAt(lines)[k]]
  {
    DstIncreasing(lines, k, n);
    FixPairAppends(FixUpTo(lines, n), SrcAt(lines)[n], DstAt(lines)[n]);
  }

  // A destination line gains what the comparison gives it, and nothing afterwards.
  lemma {:induction false} GainsOnce(lines: seq<Line>, k: nat, n: nat, s: string)
    requires k < n <= Pairs(lines) && FixUpTo(lines, k)[SrcAt(lines)[k]].text == s
    ensures var l := lines[DstAt(lines)[k]]; FixUpTo(lines, n)[DstAt(lines)[k]] == l.(text := Gained(s, l.text))
    decreases n
  {
    if n == k + 1 {
      GainsNow(lines, k, s);
    } else {
      GainsOnce(lines, k, n - 1, s);
      LaterPairKeeps(lines, k, n - 1);
    }
  }

  lemma DstNotBefore(lines: seq<Line>, k: nat, j: nat)
    requires k <= j < |DstAt(lines)|
    ensures DstAt(lines)[j] !in DstAt(lines)[..k]
  {
    DstIsNew(lines, j);
    assert DstAt(lines)[..j][..k] == DstAt(lines)[..k];
  }

  lemma {:induction false} ComparedTextIs(lines: seq<Line>, k: nat)
    requires k < Pairs(lines)
    ensures FixUpTo(lines, k)[SrcAt(lines)[k]].text == ComparedText(lines, k)
  {
    var i := SrcAt(lines)[k];
    var j := DstPlace(lines, k);
    ComparedTextGains(lines, k);
    if lines[i].kind == Both { PlaceAmongDst(lines, i); }
    if lines[i].kind == Both && j < k {
      ComparedTextIs(lines, j);
      GainsOnce(lines, j, k, ComparedText(lines, j));
    } else {
      LineSoFar(lines, k, i);
      if lines[i].kind == Both { DstNotBefore(lines, k, j); }
    }
  }

  lemma PairGains(lines: seq<Line>, k: nat)
    requires k < Pairs(lines)
    ensures var l := lines[DstAt(lines)[k]];
            Fixed(lines)[DstAt(lines)[k]] == l.(text := Gained(ComparedText(lines, k), l.text))
  {
    ComparedTextIs(lines, k);
    GainsOnce(lines, k, Pairs(lines), ComparedText(lines, k));
  }

  // The pass in closed form: what each compared destination line is afterwards.
  lemma FixedInClosedForm(lines: seq<Line>, k: nat)
    requires k < Pairs(lines)
    ensures var l := lines[DstAt(lines)[k]];
            Fixed(lines)[DstAt(lines)[k]]
            == if ComparedText(lines, k) in [l.text + " ", l.text + "\t"] then l.(text := ComparedText(lines, k)) else l
  {
    PairGains(lines, k);
    GainedMeans(ComparedText(lines, k), lines[DstAt(lines)[k]].text);
  }

  // ---------- When the source view is kept ----------

  ghost predicate SourceKept(lines: seq<Line>) {
    forall i :: 0 <= i < |lines| && lines[i].IsSrc() ==> Fixed(lines)[i] == lines[i]
  }

  // Every shared line that is compared as a destination line is compared with itself.
  ghost predicate SelfPaired(lines: seq<Line>) {
    forall k :: 0 <= k < Pairs(lines) && lines[DstAt(lines)[k]].kind == Both ==> SrcAt(lines)[k] == DstAt(lines)[k]
  }

  lemma {:induction false} SharedKeptSoFar(lines: seq<Line>, k: nat)
    requires SelfPaired(lines) && k <= Pairs(lines)
    ensures forall i :: 0 <= i < |lines| && lines[i].IsSrc() ==> FixUpTo(lines, k)[i] == lines[i]
  {
    if k > 0 {
      SharedKeptSoFar(lines, k - 1);
      var before := FixUpTo(lines, k - 1);
      var i, j := SrcAt(lines)[k - 1], DstAt(lines)[k - 1];
      if lines[j].kind == Both {
        assert i == j && !OneBlankApart(before[j].text, before[j].text);
      }
    }
  }

  // All texts empty, except one line that holds a blank.
  function Blanked(lines: seq<Line>, at: nat): (r: seq<Line>)
    ensures |r| == |lines|
  {
    seq(|lines|, i requires 0 <= i < |lines| => Line(lines[i].kind, if i == at then " " else ""))
  }

  lemma EmptyGivesNothing(t: seq<Line>, i: nat, j: nat)
    requires i < |t| && j < |t| && t[i].text == ""
    ensures FixPair(t, i, j) == t
  {
  }

  // Nothing is gained before the line with the blank is compared.
  lemma {:induction false} BlankedStays(t: seq<Line>, k: nat, n: nat)
    requires n <= k < Pairs(t) && forall i :: 0 <= i < |t| && i != SrcAt(t)[k] ==> t[i].text == ""
    ensures FixUpTo(t, n) == t
  {
    if n > 0 {
      BlankedStays(t, k, n - 1);
      SrcIncreasing(t, n - 1, k);
      EmptyGivesNothing(t, SrcAt(t)[n - 1], DstAt(t)[n - 1]);
    }
  }

  lemma BlankSpoils(t: seq<Line>, k: nat, j: nat)
    requires k < Pairs(t) && j == DstAt(t)[k] && FixUpTo(t, k) == t && t[SrcAt(t)[k]].text == " "
    requires t[j].kind == Both && t[j].text == ""
    ensures !SourceKept(t)
  {
    GainsOnce(t, k, Pairs(t), " ");
    assert Gained(" ", "") == " ";
    assert t[j].IsSrc() && Fixed(t)[j].text == " ";
  }

  // A shared line paired with another line is spoilt by suitable texts.
  lemma MispairedSpoils(lines: seq<Line>, k: nat)
    requires k < Pairs(lines) && lines[DstAt(lines)[k]].kind == Both && SrcAt(lines)[k] != DstAt(lines)[k]
    ensures SameKinds(lines, Blanked(lines, SrcAt(lines)[k])) && !SourceKept(Blanked(lines, SrcAt(lines)[k]))
  {
    var t := Blanked(lines, SrcAt(lines)[k]);
    SameKindsSamePositions(lines, t);
    BlankedStays(t, k, k);
    BlankSpoils(t, k, DstAt(t)[k]);
  }

  // The kinds of the lines decide: no text can change the source view iff shared lines meet themselves.
  lemma SourceKeptIffSelfPaired(lines: seq<Line>)
    ensures SelfPaired(lines) <==> forall t :: SameKinds(lines, t) ==> SourceKept(t)
  {
    if SelfPaired(lines) {
      forall t | SameKinds(lines, t) ensures SourceKept(t) {
        SameKindsSamePositions(lines, t);
        SharedKeptSoFar(t, Pairs(t));
      }
    } else {
      var k :| 0 <= k < Pairs(lines) && lines[DstAt(lines)[k]].kind == Both && SrcAt(lines)[k] != DstAt(lines)[k];
      MispairedSpoils(lines, k);
    }
  }

  // ---------- Kinds that line up ----------

  // The k-th source line is shared exactly when the k-th destination line is.
  ghost predicate Aligned(lines: seq<Line>) {
    forall k :: 0 <= k < Pairs(lines) ==>
      (lines[SrcAt(lines)[k]].kind == Both <==> lines[DstAt(lines)[k]].kind == Both)
  }

  function SharedIn(lines: seq<Line>, at: seq<nat>): nat
    requires forall k :: 0 <= k < |at| ==> at[k] < |lines|
  {
    if at == [] then 0
    else SharedIn(lines, at[..|at| - 1]) + if lines[at[|at| - 1]].kind == Both then 1 else 0
  }

  function Shared(lines: seq<Line>): nat {
    if lines == [] then 0 else Shared(lines[..|lines| - 1]) + if lines[|lines| - 1].kind == Both then 1 else 0
  }

  lemma {:induction false} SharedInPrefix(lines: seq<Line>, n: nat, at: seq<nat>)
    requires n <= |lines| && forall k :: 0 <= k < |at| ==> at[k] < n
    ensures SharedIn(lines[..n], at) == SharedIn(lines, at)
  {
    if at != [] { SharedInPrefix(lines, n, at[..|at| - 1]); }
  }

  lemma SharedInAppend(lines: seq<Line>, at: seq<nat>, i: nat)
    requires i < |lines| && forall k :: 0 <= k < |at| ==> at[k] < |lines|
    ensures SharedIn(lines, at + [i]) == SharedIn(lines, at) + if lines[i].kind == Both then 1 else 0
  {
    assert (at + [i])[..|at|] == at;
  }

  lemma {:induction false} AllSharedInSrc(lines: seq<Line>)
    ensures SharedIn(lines, SrcAt(lines)) == Shared(lines)
  {
    if lines != [] {
      var n := |lines| - 1;
      var src := SrcAt(lines[..n]);
      AllSharedInSrc(lines[..n]);
      SharedInPrefix(lines, n, src);
      SharedInAppend(lines, src, n);
      assert SrcAt(lines) == if lines[n].IsSrc() then src + [n] else src;
    }
  }

  lemma {:induction false} AllSharedInDst(lines: seq<Line>)
    ensures SharedIn(lines, DstAt(lines)) == Shared(lines)
  {
    if lines != [] {
      var n := |lines| - 1;
      var dst := DstAt(lines[..n]);
      AllSharedInDst(lines[..n]);
      SharedInPrefix(lines, n, dst);
      SharedInAppend(lines, dst, n);
      assert DstAt(lines) == if lines[n].IsDst() then dst + [n] else dst;
    }
  }

  // What precedes a listed line in the list is what the lines before it contribute.
  lemma {:induction false} ListedBefore(lines: seq<Line>, k: nat)
    ensures k < |SrcAt(lines)| ==> SrcAt(lines)[..k] == SrcAt(lines[..SrcAt(lines)[k]])
    ensures k < |DstAt(lines)| ==> DstAt(lines)[..k] == DstAt(lines[..DstAt(lines)[k]])
  {
    if lines != [] {
      var n := |lines| - 1;
      ListedBefore(lines[..n], k);
      if k < |SrcAt(lines[..n])| { assert lines[..n][..SrcAt(lines)[k]] == lines[..SrcAt(lines)[k]]; }
      if k < |DstAt(lines[..n])| { assert lines[..n][..DstAt(lines)[k]] == lines[..DstAt(lines)[k]]; }
    }
  }

  lemma {:induction false} AlignedCounts(lines: seq<Line>, k: nat)
    requires Aligned(lines) && k <= Pairs(lines)
    ensures SharedIn(lines, SrcAt(lines)[..k]) == SharedIn(lines, DstAt(lines)[..k])
  {
    if k > 0 {
      AlignedCounts(lines, k - 1);
      assert SrcAt(lines)[..k][..k - 1] == SrcAt(lines)[..k - 1];
      assert DstAt(lines)[..k][..k - 1] == DstAt(lines)[..k - 1];
    }
  }

  lemma {:induction false} SharedGrows(lines: seq<Line>, i: nat, j: nat)
    requires i < j <= |lines| && lines[i].kind == Both
    ensures Shared(lines[..i]) < Shared(lines[..j])
    decreases j
  {
    assert lines[..j][..j - 1] == lines[..j - 1];
    if i < j - 1 { SharedGrows(lines, i, j - 1); }
  }

  // Lined-up kinds make every shared line meet itself.
  lemma AlignedIsSelfPaired(lines: seq<Line>)
    requires Aligned(lines)
    ensures SelfPaired(lines)
  {
    forall k | 0 <= k < Pairs(lines) && lines[DstAt(lines)[k]].kind == Both
      ensures SrcAt(lines)[k] == DstAt(lines)[k]
    {
      var i, j := SrcAt(lines)[k], DstAt(lines)[k];
      ListedBefore(lines, k);
      AlignedCounts(lines, k);
      AllSharedInSrc(lines[..i]);
      AllSharedInDst(lines[..j]);
      SharedInPrefix(lines, i, SrcAt(lines)[..k]);
      SharedInPrefix(lines, j, DstAt(lines)[..k]);
      if i < j { SharedGrows(lines, i, j); }
      if j < i { SharedGrows(lines, j, i); }
    }
  }

  // ---------- What the pass is for: which pairs are still apart ----------

  // The shared source line of the pair is compared as a destination line later on, and what it gains there
  // leaves it one blank away from its partner.
  predicate SpoiltLater(lines: seq<Line>, k: nat)
    requires k < Pairs(lines)
  {
    var s, d := lines[SrcAt(lines)[k]], lines[DstAt(lines)[k]];
    && s.kind == Both
    && k < DstPlace(lines, k) < Pairs(lines)
    && OneBlankApart(Gained(ComparedText(lines, DstPlace(lines, k)), s.text), Gained(s.text, d.text))
  }

  // The text of the k-th source line after the pass.
  lemma SourceAfterPass(lines: seq<Line>, k: nat)
    requires k < Pairs(lines)
    ensures var s := lines[SrcAt(lines)[k]];
            Fixed(lines)[SrcAt(lines)[k]].text ==
              if s.kind == Both && DstPlace(lines, k) < Pairs(lines)
              then Gained(ComparedText(lines, DstPlace(lines, k)), s.text)
              else s.text
  {
    var i := SrcAt(lines)[k];
    var j := DstPlace(lines, k);
    if lines[i].kind == Both { PlaceAmongDst(lines, i); }
    if lines[i].kind == Both && j < Pairs(lines) {
      PairGains(lines, j);
    } else {
      LineSoFar(lines, Pairs(lines), i);
      if lines[i].kind == Both { DstNotBefore(lines, Pairs(lines), j); }
    }
  }

  lemma GainedIsTogether(s: string, d: string)
    ensures !OneBlankApart(s, Gained(s, d))
  {
  }

  // A source line that is compared last in its final form ends up together with its partner.
  lemma SettledIsTogether(lines: seq<Line>, k: nat)
    requires k < Pairs(lines)
    requires Fixed(lines)[SrcAt(lines)[k]].text == ComparedText(lines, k) || SrcAt(lines)[k] == DstAt(lines)[k]
    ensures !OneBlankApart(Fixed(lines)[SrcAt(lines)[k]].text, Fixed(lines)[DstAt(lines)[k]].text)
  {
    if SrcAt(lines)[k] != DstAt(lines)[k] {
      PairGains(lines, k);
      GainedIsTogether(ComparedText(lines, k), lines[DstAt(lines)[k]].text);
    }
  }

  lemma UnspoiltIsSettled(lines: seq<Line>, k: nat)
    requires k < Pairs(lines)
    requires !(lines[SrcAt(lines)[k]].kind == Both && k < DstPlace(lines, k) < Pairs(lines))
    ensures Fixed(lines)[SrcAt(lines)[k]].text == ComparedText(lines, k) || SrcAt(lines)[k] == DstAt(lines)[k]
  {
    SourceAfterPass(lines, k);
    ComparedTextGains(lines, k);
    if lines[SrcAt(lines)[k]].kind == Both && DstPlace(lines, k) == k {
      PlaceAmongDst(lines, SrcAt(lines)[k]);
    }
  }

  lemma SpoiltIsApart(lines: seq<Line>, k: nat, s: Line, d: Line, j: nat)
    requires k < Pairs(lines) && s == lines[SrcAt(lines)[k]] && d == lines[DstAt(lines)[k]]
    requires s.kind == Both && j == DstPlace(lines, k) && k < j < Pairs(lines)
    ensures Fixed(lines)[SrcAt(lines)[k]].text == Gained(ComparedText(lines, j), s.text)
    ensures Fixed(lines)[DstAt(lines)[k]].text == Gained(s.text, d.text)
  {
    SourceAfterPass(lines, k);
    PairGains(lines, k);
    ComparedTextGains(lines, k);
  }

  // After the pass a pair differs by exactly one trailing blank if and only if it has been spoilt.
  lemma PairApartIffSpoilt(lines: seq<Line>, k: nat)
    requires k < Pairs(lines)
    ensures OneBlankApart(Fixed(lines)[SrcAt(lines)[k]].text, Fixed(lines)[DstAt(lines)[k]].text)
            <==> SpoiltLater(lines, k)
  {
    var s, j := lines[SrcAt(lines)[k]], DstPlace(lines, k);
    if s.kind == Both && k < j < Pairs(lines) {
      SpoiltIsApart(lines, k, s, lines[DstAt(lines)[k]], j);
    } else {
      UnspoiltIsSettled(lines, k);
      SettledIsTogether(lines, k);
    }
  }

  lemma SelfPairedIsNotSpoilt(lines: seq<Line>, k: nat)
    requires SelfPaired(lines) && k < Pairs(lines)
    ensures !SpoiltLater(lines, k)
  {
    var i, j := SrcAt(lines)[k], DstPlace(lines, k);
    if lines[i].kind == Both && k < j < Pairs(lines) {
      PlaceAmongDst(lines, i);
      SrcIncreasing(lines, k, j);
    }
  }

  // In a fully processed chunk no pair still differs by exactly one trailing blank.
  lemma NoPairApart(lines: seq<Line>)
    requires SelfPaired(lines) && Complete(lines)
    ensures forall k :: 0 <= k < |SrcAt(lines)| ==>
              !OneBlankApart(Fixed(lines)[SrcAt(lines)[k]].text, Fixed(lines)[DstAt(lines)[k]].text)
  {
    forall k | 0 <= k < |SrcAt(lines)|
      ensures !OneBlankApart(Fixed(lines)[SrcAt(lines)[k]].text, Fixed(lines)[DstAt(lines)[k]].text)
    {
      PairApartIffSpoilt(lines, k);
      SelfPairedIsNotSpoilt(lines, k);
    }
  }

  lemma PositionsAppend(lines: seq<Line>, l: Line)
    ensures SrcAt(lines + [l]) == SrcAt(lines) + if l.IsSrc() then [|lines|] else []
    ensures DstAt(lines + [l]) == DstAt(lines) + if l.IsDst() then [|lines|] else []
  {
    assert (lines + [l])[..|lines|] == lines;
  }

  lemma OneLinePositions(a: Line)
    ensures SrcAt([a]) == if a.IsSrc() then [0] else []
    ensures DstAt([a]) == if a.IsDst() then [0] else []
  {
    var none: seq<Line> := [];
    assert none + [a] == [a];
    PositionsAppend(none, a);
  }

  lemma TwoLinePositions(a: Line, b: Line)
    ensures SrcAt([a, b]) == SrcAt([a]) + if b.IsSrc() then [1] else []
    ensures DstAt([a, b]) == DstAt([a]) + if b.IsDst() then [1] else []
  {
    assert [a] + [b] == [a, b];
    PositionsAppend([a], b);
  }

  lemma ThreeLinePositions(a: Line, b: Line, c: Line)
    requires a.kind == Dst && b.kind == Both && c.kind == Src
    ensures SrcAt([a, b, c]) == [1, 2] && DstAt([a, b, c]) == [0, 1]
    ensures DstAt([a, b, c][..1]) == [0]
  {
    OneLinePositions(a);
    TwoLinePositions(a, b);
    assert [a, b] + [c] == [a, b, c] && [a, b, c][..1] == [a];
    PositionsAppend([a, b], c);
  }

  // A chunk that is processed completely and ends with its first pair one blank apart.
  lemma PassCanPartPair(lines: seq<Line>)
    requires lines == [Line(Dst, "a"), Line(Both, "a"), Line(Src, "a ")]
    ensures Complete(lines) && Pairs(lines) == 2
    ensures OneBlankApart(Fixed(lines)[SrcAt(lines)[0]].text, Fixed(lines)[DstAt(lines)[0]].text)
  {
    ThreeLinePositions(lines[0], lines[1], lines[2]);
    assert "a "[..1] == "a" && "a" + " " == "a ";
    assert ComparedText(lines, 1) == "a ";
    assert Gained("a ", "a") == "a " && Gained("a", "a") == "a";
    PairApartIffSpoilt(lines, 0);
  }

  // ---------- When a chunk stays printable ----------

  lemma LongerPrefix(l: Line, s: string)
    requires PrintableLine(l) && OneBlankApart(s, l.text) && l.kind != Src
    ensures !PrintableLine(l.(text := l.text + [s[|s| - 1]])) <==> l == Line(Dst, "++") && s == "++ "
  {
    var longer := l.text + [s[|s| - 1]];
    assert longer == s;
    if |l.text| >= 3 { assert longer[..3] == l.text[..3]; }
    if "++ " <= longer && |l.text| < 3 {
      assert longer[..3] == "++ ";
      assert |longer| == 3;
      assert l.text == longer[..2] == "++";
    }
  }

  // An added "++" that is compared with a line that reads "++ " at that moment.
  ghost predicate Clash(lines: seq<Line>, k: nat)
    requires k < Pairs(lines)
  {
    lines[DstAt(lines)[k]] == Line(Dst, "++") && ComparedText(lines, k) == "++ "
  }

  lemma PairPrintable(lines: seq<Line>, k: nat)
    requires k < Pairs(lines) && PrintableLine(lines[DstAt(lines)[k]])
    ensures !PrintableLine(Fixed(lines)[DstAt(lines)[k]]) <==> Clash(lines, k)
  {
    var l, s := lines[DstAt(lines)[k]], ComparedText(lines, k);
    PairGains(lines, k);
    assert "++ "[..2] == "++";
    if OneBlankApart(s, l.text) {
      LongerPrefix(l, s);
    }
  }

  // The pass can make a printable chunk unprintable: exactly where there is such a clash.
  lemma PassKeepsPrintable(c: Chunk)
    requires PrintableChunk(c)
    ensures PrintableChunk(c.(lines := Fixed(c.lines))) <==>
              forall k :: 0 <= k < Pairs(c.lines) ==> !Clash(c.lines, k)
  {
    var lines := c.lines;
    OnlyBlanksAppended(lines);
    forall k | 0 <= k < Pairs(lines)
      ensures !PrintableLine(Fixed(lines)[DstAt(lines)[k]]) <==> Clash(lines, k)
    {
      PairPrintable(lines, k);
    }
    forall i | 0 <= i < |lines| && i !in DstAt(lines)[..Pairs(lines)] ensures PrintableLine(Fixed(lines)[i]) {
      LineSoFar(lines, Pairs(lines), i);
    }
  }

  lemma ClashingChunk(c: Chunk)
    requires c == Chunk(1, 1, [Line(Src, "++ "), Line(Dst, "++")])
    ensures PrintableChunk(c) && !PrintableChunk(c.(lines := Fixed(c.lines)))
  {
    OneLinePositions(c.lines[0]);
    TwoLinePositions(c.lines[0], c.lines[1]);
    assert "++ "[0] == '+' && "-- "[0] == '-';
    assert PrintableLine(c.lines[0]) && PrintableLine(c.lines[1]);
    assert Pairs(c.lines) == 1 && Clash(c.lines, 0);
    PassKeepsPrintable(c);
  }

  lemma OneChunkPrintable(c: Chunk)
    ensures Printable([Patch("a", "b", [c])]) <==> PrintableChunk(c)
  {
    var p := Patch("a", "b", [c]);
    assert PrintablePatch(p) <==> PrintableChunk(p.chunks[0]);
    assert Printable([p]) <==> PrintablePatch([p][0]);
  }

  // A patch that is read back unchanged before the pass but not after it.
  lemma PassCanBreakPrinting(c: Chunk)
    requires c == Chunk(1, 1, [Line(Src, "++ "), Line(Dst, "++")])
    ensures Parse(Write([Patch("a", "b", [c])])) == Ok([Patch("a", "b", [c])])
    ensures var fixed := [Patch("a", "b", [c.(lines := Fixed(c.lines))])];
            Parse(Write(fixed)) != Ok(fixed)
  {
    var d := c.(lines := Fixed(c.lines));
    ClashingChunk(c);
    OneChunkPrintable(c);
    OneChunkPrintable(d);
    RoundTrip([Patch("a", "b", [c])]);
    RoundTrip([Patch("a", "b", [d])]);
  }
}
