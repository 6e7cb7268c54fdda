// What Pipeline.run of waf-tools/shellcmd.py (lines 214-346) computes: right-nested short-circuit
// evaluation, compared with the AND-OR lists of section 2.9.3 of the POSIX.1-2017 Shell Command
// Language, which are evaluated from left to right.

module AndOrLists {
  import opened Sequences
  import opened ShellSyntax

  // The exit code of the command at a position of the node list.
  type Codes = nat -> int

  datatype RunError = IndexError | AssertionError | TypeError

  datatype Outcome = Returned(code: int) | ReturnedNone | Raised(error: RunError)

  // What run does from position i on, for any node list: the exceptions included.
  function Evaluate(nodes: seq<Node>, i: nat, codes: Codes): Outcome
    decreases |nodes| - i
  {
    if i >= |nodes| then ReturnedNone
    else
      match nodes[i]
      case Chdir(dir) =>
        if i + 1 >= |nodes| then Raised(IndexError)
        else if nodes[i + 1] != And then Raised(AssertionError)
        else if dir == None then Raised(TypeError)
        else Evaluate(nodes, i + 2, codes)
      case Command(_, _, _, _, _) =>
        if i + 1 >= |nodes| then Returned(codes(i))
        else if nodes[i + 1] == Or && codes(i) == 0 then Returned(codes(i))
        else if nodes[i + 1] == And && codes(i) != 0 then Returned(codes(i))
        else Evaluate(nodes, i + 2, codes)
      case _ => Raised(AssertionError)
  }

  // ---------- AND-OR lists ----------

  // A pipeline is known by its last item: a command, or a cd, which always succeeds here.
  datatype Item = Cd | Cmd(at: nat)

  datatype Op = AND | OR

  datatype AndOr = Single(item: Item) | Joined(item: Item, op: Op, rest: AndOr)

  function ItemAt(nodes: seq<Node>, i: nat): Item
    requires i < |nodes|
  {
    if nodes[i].Chdir? then Cd else Cmd(i)
  }

  // Splitting a node list at && and ||.
  function Split(nodes: seq<Node>, i: nat): AndOr
    requires i < |nodes| && |nodes| % 2 == 1 && i % 2 == 0
    decreases |nodes| - i
  {
    if i + 1 == |nodes| then Single(ItemAt(nodes, i))
    else
      match nodes[i + 1]
      case And => Joined(ItemAt(nodes, i), AND, Split(nodes, i + 2))
      case Or => Joined(ItemAt(nodes, i), OR, Split(nodes, i + 2))
      case _ => Split(nodes, i + 2)
  }

  function Status(item: Item, codes: Codes): int {
    match item
    case Cd => 0
    case Cmd(at) => codes(at)
  }

  // p1 op1 (p2 op2 (p3 ...)): each operator decides about everything to its right.
  function RightNested(l: AndOr, codes: Codes): int {
    match l
    case Single(item) => Status(item, codes)
    case Joined(item, op, rest) =>
      var s := Status(item, codes);
      if (s == 0) == (op == AND) then RightNested(rest, codes) else s
  }

  function Continue(status: int, op: Op, l: AndOr, codes: Codes): int
    decreases l
  {
    var s := if (status == 0) == (op == AND) then Status(l.item, codes) else status;
    match l
    case Single(_) => s
    case Joined(_, op2, rest) => Continue(s, op2, rest, codes)
  }

  // ((p1 op1 p2) op2 p3) ...: equal precedence, left associativity.
  function LeftToRight(l: AndOr, codes: Codes): int {
    match l
    case Single(item) => Status(item, codes)
    case Joined(item, op, rest) => Continue(Status(item, codes), op, rest, codes)
  }

  // ---------- run on what parse yields ----------

  // Every cd names a directory, and the list does not end in a cd.
  ghost predicate Runnable(nodes: seq<Node>) {
    && WellFormed(nodes)
    && nodes[|nodes| - 1].Command?
    && forall i :: 0 <= i < |nodes| && nodes[i].Chdir? ==> nodes[i].dir != None
  }

  lemma {:induction false} EvaluateIsRightNested(nodes: seq<Node>, i: nat, codes: Codes)
    requires Runnable(nodes) && i < |nodes| && i % 2 == 0
    ensures Evaluate(nodes, i, codes) == Returned(RightNested(Split(nodes, i), codes))
    decreases |nodes| - i
  {
    assert NodeOk(nodes, i);
    if i + 1 < |nodes| {
      EvaluateIsRightNested(nodes, i + 2, codes);
      assert NodeOk(nodes, i + 1);
    }
  }

  // Parsing and running together: no failed assertion and no index error, unless the list ends in cd.
  lemma ParsedRuns(env: EnvMatch, tokens: seq<string>, codes: Codes)
    requires Parse(env, tokens).Some?
    requires var nodes := Parse(env, tokens).value;
             nodes != [] && nodes[|nodes| - 1].Command?
             && forall i :: 0 <= i < |nodes| && nodes[i].Chdir? ==> nodes[i].dir != None
    ensures var nodes := Parse(env, tokens).value;
            WellFormed(nodes) && Evaluate(nodes, 0, codes) == Returned(RightNested(Split(nodes, 0), codes))
  {
    ParsedIsWellFormed(env, tokens);
    EvaluateIsRightNested(Parse(env, tokens).value, 0, codes);
  }

  // Exit codes with which every && and every || goes on.
  function Onward(nodes: seq<Node>): Codes {
    (i: nat) => if i + 1 < |nodes| && nodes[i + 1] == Or then 1 else 0
  }

  lemma {:induction false} OnwardRaises(nodes: seq<Node>, i: nat)
    requires WellFormed(nodes) && i < |nodes| && i % 2 == 0
    requires nodes[|nodes| - 1].Chdir? || exists j :: i <= j < |nodes| && nodes[j].Chdir? && nodes[j].dir == None
    ensures Evaluate(nodes, i, Onward(nodes)).Raised?
    decreases |nodes| - i
  {
    assert NodeOk(nodes, i);
    if i + 1 < |nodes| {
      assert NodeOk(nodes, i + 1);
      if !nodes[i].Chdir? || nodes[i].dir != None { OnwardRaises(nodes, i + 2); }
    }
  }

  // No exit codes make a parsed list raise, exactly when it does not end in cd and every cd has a directory.
  lemma NeverRaisesIffRunnable(nodes: seq<Node>)
    requires WellFormed(nodes)
    ensures Runnable(nodes) <==> forall codes: Codes :: Evaluate(nodes, 0, codes).Returned?
  {
    assert NodeOk(nodes, |nodes| - 1);
    if Runnable(nodes) {
      forall codes: Codes ensures Evaluate(nodes, 0, codes).Returned? {
        EvaluateIsRightNested(nodes, 0, codes);
      }
    } else {
      OnwardRaises(nodes, 0);
    }
  }

  // A list that is evaluated to a cd at its end raises IndexError there.
  lemma {:induction false} FinalCdRaises(nodes: seq<Node>, i: nat, codes: Codes)
    requires WellFormed(nodes) && nodes[|nodes| - 1].Chdir? && i < |nodes| && i % 2 == 0
    requires forall j :: 0 <= j < |nodes| && nodes[j].Chdir? ==> nodes[j].dir != None
    ensures Evaluate(nodes, i, codes) == Raised(IndexError)
            || exists j :: i <= j < |nodes| && nodes[j].Command? && Evaluate(nodes, i, codes) == Returned(codes(j))
    decreases |nodes| - i
  {
    assert NodeOk(nodes, i);
    if i + 1 < |nodes| { FinalCdRaises(nodes, i + 2, codes); }
  }

  // ---------- Agreement with left-to-right evaluation ----------

  // Commands have their own positions; a cd is followed by &&.
  ghost predicate Regular(l: AndOr, from: nat)
    decreases l
  {
    match l
    case Single(item) => item.Cmd? && item.at >= from
    case Joined(item, op, rest) =>
      match item
      case Cd => op == AND && Regular(rest, from)
      case Cmd(at) => at >= from && Regular(rest, at + 1)
  }

  lemma {:induction false} RegularWeakens(l: AndOr, from: nat, lower: nat)
    requires Regular(l, from) && lower <= from
    ensures Regular(l, lower)
    decreases l
  {
    if l.Joined? && l.item.Cd? { RegularWeakens(l.rest, from, lower); }
  }

  lemma {:induction false} SplitIsRegular(nodes: seq<Node>, i: nat)
    requires Runnable(nodes) && i < |nodes| && i % 2 == 0
    ensures Regular(Split(nodes, i), i)
    decreases |nodes| - i
  {
    assert NodeOk(nodes, i);
    if i + 1 < |nodes| {
      SplitIsRegular(nodes, i + 2);
      RegularWeakens(Split(nodes, i + 2), i + 2, i + 1);
      RegularWeakens(Split(nodes, i + 2), i + 2, i);
    }
  }

  function WithoutLeadingCds(l: AndOr): AndOr {
    match l
    case Joined(Cd, AND, rest) => WithoutLeadingCds(rest)
    case _ => l
  }

  predicate AllOps(l: AndOr, op: Op) {
    l.Joined? ==> l.op == op && AllOps(l.rest, op)
  }

  // After the leading cds only one of the two operators is used.
  predicate OneOperator(l: AndOr) {
    var m := WithoutLeadingCds(l);
    AllOps(m, AND) || AllOps(m, OR)
  }

  lemma {:induction false} LeadingCdsAreNeutral(l: AndOr, from: nat, codes: Codes)
    requires Regular(l, from)
    ensures Regular(WithoutLeadingCds(l), from) && WithoutLeadingCds(l).item.Cmd?
    ensures RightNested(l, codes) == RightNested(WithoutLeadingCds(l), codes)
    ensures LeftToRight(l, codes) == LeftToRight(WithoutLeadingCds(l), codes)
    decreases l
  {
    if l.Joined? && l.item.Cd? {
      LeadingCdsAreNeutral(l.rest, from, codes);
    }
  }

  // With a single operator a decided status stays.
  lemma {:induction false} DecidedStays(status: int, op: Op, l: AndOr, codes: Codes)
    requires AllOps(l, op) && (status == 0) != (op == AND)
    ensures Continue(status, op, l, codes) == status
    decreases l
  {
    if l.Joined? { DecidedStays(status, op, l.rest, codes); }
  }

  lemma {:induction false} OneOperatorAgrees(l: AndOr, op: Op, codes: Codes)
    requires AllOps(l, op)
    ensures RightNested(l, codes) == LeftToRight(l, codes)
    decreases l
  {
    if l.Joined? {
      OneOperatorAgrees(l.rest, op, codes);
      var s := Status(l.item, codes);
      if (s == 0) != (op == AND) { DecidedStays(s, op, l.rest, codes); }
    }
  }

  // All commands but the one at position k end with code other, that one with code own.
  function Except(k: nat, own: int, other: int): Codes {
    i => if i == k then own else other
  }

  lemma RegularRest(l: AndOr, from: nat)
    requires Regular(l, from) && l.Joined?
    ensures Regular(l.rest, from)
  {
    if l.item.Cmd? { RegularWeakens(l.rest, l.item.at + 1, from); }
  }

  // Once the status is 0 and every command returns 0, it stays 0.
  lemma {:induction false} ZeroStays(op: Op, l: AndOr, from: nat, k: nat)
    requires Regular(l, from) && k < from
    ensures Continue(0, op, l, Except(k, 1, 0)) == 0
    decreases l
  {
    if l.Joined? {
      RegularRest(l, from);
      ZeroStays(l.op, l.rest, from, k);
    }
  }

  // After a first failure under &&, an || later on starts over.
  lemma {:induction false} OrRecovers(op: Op, l: AndOr, from: nat, k: nat)
    requires Regular(l, from) && k < from
    requires op == OR || !AllOps(l, AND)
    ensures Continue(1, op, l, Except(k, 1, 0)) == 0
    decreases l
  {
    if l.Joined? {
      RegularRest(l, from);
      if op == OR {
        ZeroStays(l.op, l.rest, from, k);
      } else {
        OrRecovers(l.op, l.rest, from, k);
      }
    }
  }

  // When every command fails, a status other than 0, or a 0 before &&, ends other than 0.
  lemma {:induction false} FailureStays(status: int, op: Op, l: AndOr, from: nat, k: nat)
    requires Regular(l, from) && k < from
    requires status == 1 || (status == 0 && op == AND)
    ensures Continue(status, op, l, Except(k, 0, 1)) == 1
    decreases l
  {
    if l.Joined? {
      RegularRest(l, from);
      var s := if (status == 0) == (op == AND) then Status(l.item, Except(k, 0, 1)) else status;
      FailureStays(s, l.op, l.rest, from, k);
    }
  }

  // After a first success under ||, an && later on runs something that fails.
  lemma {:induction false} AndFails(l: AndOr, from: nat, k: nat)
    requires Regular(l, from) && k < from && !AllOps(l, OR)
    ensures Continue(0, OR, l, Except(k, 0, 1)) == 1
    decreases l
  {
    RegularRest(l, from);
    if l.op == AND {
      FailureStays(0, AND, l.rest, from, k);
    } else {
      AndFails(l.rest, from, k);
    }
  }

  lemma MixedDisagree(l: AndOr, from: nat)
    requires Regular(l, from) && l.item.Cmd? && !AllOps(l, AND) && !AllOps(l, OR)
    ensures var k := l.item.at;
            RightNested(l, Except(k, 1, 0)) != LeftToRight(l, Except(k, 1, 0))
            || RightNested(l, Except(k, 0, 1)) != LeftToRight(l, Except(k, 0, 1))
  {
    var k := l.item.at;
    if l.op == AND {
      OrRecovers(AND, l.rest, k + 1, k);
    } else {
      AndFails(l.rest, k + 1, k);
    }
  }

  // run agrees with left-to-right AND-OR lists for all exit codes exactly when, leading cds aside,
  // only one operator is used.
  lemma AgreesIffOneOperator(nodes: seq<Node>)
    requires Runnable(nodes)
    ensures OneOperator(Split(nodes, 0)) <==>
              forall codes: Codes :: Evaluate(nodes, 0, codes) == Returned(LeftToRight(Split(nodes, 0), codes))
  {
    var l := Split(nodes, 0);
    var m := WithoutLeadingCds(l);
    SplitIsRegular(nodes, 0);
    forall codes: Codes
      ensures Evaluate(nodes, 0, codes) == Returned(RightNested(m, codes))
      ensures LeftToRight(l, codes) == LeftToRight(m, codes)
      ensures Regular(m, 0) && m.item.Cmd?
    {
      EvaluateIsRightNested(nodes, 0, codes);
      LeadingCdsAreNeutral(l, 0, codes);
    }
    if OneOperator(l) {
      forall codes: Codes ensures RightNested(m, codes) == LeftToRight(m, codes) {
        OneOperatorAgrees(m, if AllOps(m, AND) then AND else OR, codes);
      }
    } else {
      LeadingCdsAreNeutral(l, 0, Except(0, 0, 0));
      MixedDisagree(m, 0);
      var c1, c2 := Except(m.item.at, 1, 0), Except(m.item.at, 0, 1);
      assert Evaluate(nodes, 0, c1) == Returned(RightNested(m, c1));
      assert Evaluate(nodes, 0, c2) == Returned(RightNested(m, c2));
    }
  }

  // a || b && c with a ending 0 and c ending 1
  const MIXED: seq<string> := ["a", "||", "b", "&&", "c"]

  function Plain(name: string): Node {
    Command([name], None, NoRedirect, NoRedirect, map[])
  }

  lemma MixedSteps(env: EnvMatch)
    requires env("a") == env("b") == env("c") == None
    ensures Parse(env, MIXED) == Some([Plain("a"), Or, Plain("b"), And, Plain("c")])
  {
    var t := MIXED;
    assert t[..4] == ["a", "||", "b", "&&"] && t[..4][..3] == ["a", "||", "b"];
    assert t[..4][..3][..2] == ["a", "||"] && t[..4][..3][..2][..1] == ["a"] && ["a"][..0] == [];
    var first: seq<Node> := [];
    assert first + [Plain("a"), Or] == [Plain("a"), Or];
    assert [Plain("a"), Or] + [Plain("b"), And] == [Plain("a"), Or, Plain("b"), And];
    assert [Plain("a"), Or, Plain("b"), And] + [Plain("c")] == [Plain("a"), Or, Plain("b"), And, Plain("c")];
    assert Steps(env, ["a"]) == Some(Parser(COMMAND, Some(Plain("a")), [], map[]));
    assert Steps(env, ["a", "||"]) == Some(Parser(BEGIN, None, [Plain("a"), Or], map[]));
    assert Steps(env, ["a", "||", "b"]) == Some(Parser(COMMAND, Some(Plain("b")), [Plain("a"), Or], map[]));
    assert Steps(env, t[..4]) == Some(Parser(BEGIN, None, [Plain("a"), Or, Plain("b"), And], map[]));
  }

  // run stops after a and returns 0; from left to right, c would run and its 1 be returned.
  lemma MixedExample(env: EnvMatch, codes: Codes)
    requires env("a") == env("b") == env("c") == None && codes(0) == 0 && codes(4) == 1
    ensures Parse(env, MIXED).Some?
    ensures var nodes := Parse(env, MIXED).value;
            && |nodes| == 5
            && Evaluate(nodes, 0, codes) == Returned(0)
            && LeftToRight(Split(nodes, 0), codes) == 1
  {
    MixedSteps(env);
    var nodes := Parse(env, MIXED).value;
    assert Split(nodes, 4) == Single(Cmd(4));
    assert Split(nodes, 2) == Joined(Cmd(2), AND, Single(Cmd(4)));
    assert Split(nodes, 0) == Joined(Cmd(0), OR, Joined(Cmd(2), AND, Single(Cmd(4))));
  }
}
