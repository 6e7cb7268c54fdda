// Node lists of the mini shell in waf-tools/shellcmd.py: what Pipeline.parse makes of a token list
// (lines 53-94, 101-104, 121-201). Tokenizing and the pattern NAME=VALUE are the caller's.

module ShellSyntax {
  import opened Sequences

  datatype Redirect = NoRedirect | ToFile(name: string) | ToPipe | ToStdout

  // parse redirects stdout only to a file or a pipe, stderr only to a file or to stdout.
  type StdoutTarget = r: Redirect | !r.ToStdout? witness NoRedirect
  type StderrTarget = r: Redirect | !r.ToPipe? witness NoRedirect

  datatype Node =
    | Command(argv: seq<string>, stdin: Option<string>, stdout: StdoutTarget, stderr: StderrTarget,
              env: map<string, string>)
    | Chdir(dir: Option<string>)
    | Pipe
    | And
    | Or

  // env_var_rx.match: the name and the value of an assignment token.
  type EnvMatch = string -> Option<(string, string)>

  datatype Mode = BEGIN | COMMAND | CHDIR | STDERR | STDOUT | STDIN

  // The variables of parse: state, current_command, pipeline, env_vars.
  datatype Parser = Parser(mode: Mode, current: Option<Node>, nodes: seq<Node>, env: map<string, string>)

  const START := Parser(BEGIN, None, [], map[])

  // _commit_command, then the operator
  function Committed(p: Parser, op: Node): Option<Parser> {
    match p.current
    case None => None
    case Some(c) => Some(p.(mode := BEGIN, current := None, nodes := p.nodes + [c, op]))
  }

  // The states in which a command is being read.
  function StepCommand(p: Parser, c: Node, token: string): Option<Parser>
    requires c.Command?
  {
    match p.mode
    case STDOUT =>
      if c.stdout != NoRedirect then None
      else Some(p.(mode := COMMAND, current := Some(c.(stdout := ToFile(token)))))
    case STDERR =>
      if c.stderr != NoRedirect then None
      else Some(p.(mode := COMMAND, current := Some(c.(stderr := ToFile(token)))))
    case STDIN =>
      if c.stdin != None then None
      else Some(p.(mode := COMMAND, current := Some(c.(stdin := Some(token)))))
    case _ =>
      if token == ">" then Some(p.(mode := STDOUT))
      else if token == "2>" then Some(p.(mode := STDERR))
      else if token == "2>&1" then
        (if c.stderr != NoRedirect then None else Some(p.(current := Some(c.(stderr := ToStdout)))))
      else if token == "<" then Some(p.(mode := STDIN))
      else if token == "|" then
        (if c.stdout != NoRedirect then None else Committed(p.(current := Some(c.(stdout := ToPipe))), Pipe))
      else if token == "&&" then Committed(p, And)
      else if token == "||" then Committed(p, Or)
      else Some(p.(current := Some(c.(argv := c.argv + [token]))))
  }

  // One turn of the loop; None is a failed assertion.
  function Step(env: EnvMatch, p: Parser, token: string): Option<Parser> {
    match p.mode
    case BEGIN =>
      (match env(token)
       case Some(v) => Some(p.(env := p.env[v.0 := v.1]))
       case None =>
         if p.current != None then None
         else if token == "cd" then
           (if p.env != map[] then None else Some(p.(mode := CHDIR, current := Some(Chdir(None)))))
         else
           Some(p.(mode := COMMAND, env := map[],
                   current := Some(Command([token], None, NoRedirect, NoRedirect, p.env)))))
    case CHDIR =>
      if token == "&&" then Committed(p, And)
      else if p.current.Some? && p.current.value.Chdir? && p.current.value.dir == None
      then Some(p.(current := Some(Chdir(Some(token)))))
      else None
    case _ =>
      if !(p.current.Some? && p.current.value.Command?) then None
      else StepCommand(p, p.current.value, token)
  }

  function Steps(env: EnvMatch, tokens: seq<string>): Option<Parser> {
    if tokens == [] then Some(START)
    else
      match Steps(env, tokens[..|tokens| - 1])
      case None => None
      case Some(p) => Step(env, p, tokens[|tokens| - 1])
  }

  // The whole of parse: the final commit fails when no command is under way.
  function Parse(env: EnvMatch, tokens: seq<string>): Option<seq<Node>> {
    match Steps(env, tokens)
    case None => None
    case Some(p) => if p.current == None then None else Some(p.nodes + [p.current.value])
  }

  // ---------- The shape of a parse ----------

  predicate IsItem(n: Node) { n.Command? || n.Chdir? }

  predicate IsOp(n: Node) { n.Pipe? || n.And? || n.Or? }

  predicate PipeFollows(nodes: seq<Node>, i: nat) {
    i + 1 < |nodes| && nodes[i + 1] == Pipe
  }

  // Items at the even positions, operators at the odd ones; a command pipes its output iff a Pipe
  // follows; a cd that is not last is followed by And.
  predicate NodeOk(nodes: seq<Node>, i: nat)
    requires i < |nodes|
  {
    if i % 2 == 1 then IsOp(nodes[i])
    else
      && IsItem(nodes[i])
      && (nodes[i].Command? ==> nodes[i].argv != [] && (nodes[i].stdout == ToPipe <==> PipeFollows(nodes, i)))
      && (nodes[i].Chdir? && i + 1 < |nodes| ==> nodes[i + 1] == And)
  }

  ghost predicate AllOk(nodes: seq<Node>) {
    forall i {:trigger NodeOk(nodes, i)} :: 0 <= i < |nodes| ==> NodeOk(nodes, i)
  }

  // item (op item)*
  ghost predicate WellFormed(nodes: seq<Node>) {
    |nodes| % 2 == 1 && AllOk(nodes)
  }

  // The list before the command under way: (item op)*
  ghost predicate Prefix(nodes: seq<Node>) {
    |nodes| % 2 == 0 && AllOk(nodes)
  }

  // An item and the operator after it.
  predicate GoodPair(n: Node, op: Node) {
    && IsItem(n) && IsOp(op)
    && (n.Command? ==> (n.stdout == ToPipe <==> op == Pipe) && n.argv != [])
    && (n.Chdir? ==> op == And)
  }

  lemma PrefixExtends(nodes: seq<Node>, more: seq<Node>, i: nat)
    requires Prefix(nodes) && i < |nodes|
    ensures NodeOk(nodes + more, i)
  {
    assert NodeOk(nodes, i);
    if i % 2 == 0 { assert (nodes + more)[i + 1] == nodes[i + 1]; }
  }

  lemma PrefixShrinks(nodes: seq<Node>, n: nat)
    requires AllOk(nodes) && n <= |nodes| && n % 2 == 0
    ensures Prefix(nodes[..n])
  {
    forall i | 0 <= i < n ensures NodeOk(nodes[..n], i) {
      assert NodeOk(nodes, i);
    }
  }

  ghost predicate ParserInv(p: Parser) {
    && Prefix(p.nodes)
    && match p.mode
       case BEGIN => p.current == None
       case CHDIR => p.current.Some? && p.current.value.Chdir?
       case _ => p.current.Some? && p.current.value.Command? && p.current.value.stdout != ToPipe
                 && p.current.value.argv != []
  }

  lemma CommitInv(nodes: seq<Node>, c: Node, op: Node)
    requires Prefix(nodes) && GoodPair(c, op)
    ensures Prefix(nodes + [c, op])
  {
    var more := nodes + [c, op];
    forall i | 0 <= i < |more| ensures NodeOk(more, i) {
      if i < |nodes| { PrefixExtends(nodes, [c, op], i); }
    }
  }

  lemma StepInv(env: EnvMatch, p: Parser, token: string)
    requires ParserInv(p) && Step(env, p, token).Some?
    ensures ParserInv(Step(env, p, token).value)
  {
    if p.mode == CHDIR && token == "&&" {
      CommitInv(p.nodes, p.current.value, And);
    } else if p.mode == COMMAND {
      var c := p.current.value;
      if token == "|" {
        CommitInv(p.nodes, c.(stdout := ToPipe), Pipe);
      } else if token == "&&" {
        CommitInv(p.nodes, c, And);
      } else if token == "||" {
        CommitInv(p.nodes, c, Or);
      }
    }
  }

  lemma {:induction false} StepsInv(env: EnvMatch, tokens: seq<string>)
    requires Steps(env, tokens).Some?
    ensures ParserInv(Steps(env, tokens).value)
  {
    if tokens != [] {
      var n := |tokens| - 1;
      StepsInv(env, tokens[..n]);
      StepInv(env, Steps(env, tokens[..n]).value, tokens[n]);
    }
  }

  lemma LastItemMakesWellFormed(nodes: seq<Node>, c: Node)
    requires Prefix(nodes) && IsItem(c) && (c.Command? ==> c.stdout != ToPipe && c.argv != [])
    ensures WellFormed(nodes + [c])
  {
    forall i | 0 <= i < |nodes| + 1 ensures NodeOk(nodes + [c], i) {
      if i < |nodes| { PrefixExtends(nodes, [c], i); }
    }
  }

  lemma ParsedIsWellFormed(env: EnvMatch, tokens: seq<string>)
    requires Parse(env, tokens).Some?
    ensures WellFormed(Parse(env, tokens).value)
  {
    StepsInv(env, tokens);
    var p := Steps(env, tokens).value;
    LastItemMakesWellFormed(p.nodes, p.current.value);
  }

  // ---------- Every well-formed list is the parse of its tokens ----------

  predicate IsControl(token: string) {
    token in [">", "2>", "2>&1", "<", "|", "&&", "||"]
  }

  // How an assignment is written.
  type Show = (string, string) -> string

  // A command is written as assignments followed by pieces in any order, the first one an argument.
  datatype Piece = Arg(token: string) | In(name: string) | Out(name: string) | Err(name: string) | Merge

  datatype Writing = Writing(assignments: seq<(string, string)>, pieces: seq<Piece>)

  function PieceTokens(p: Piece): seq<string> {
    match p
    case Arg(token) => [token]
    case In(name) => ["<", name]
    case Out(name) => [">", name]
    case Err(name) => ["2>", name]
    case Merge => ["2>&1"]
  }

  function PiecesTokens(ps: seq<Piece>): seq<string> {
    if ps == [] then [] else PiecesTokens(ps[..|ps| - 1]) + PieceTokens(ps[|ps| - 1])
  }

  // The arguments, the files for stdin and stdout, and the targets of stderr, each in order.
  function ArgsOf(ps: seq<Piece>): seq<string> {
    if ps == [] then []
    else ArgsOf(ps[..|ps| - 1]) + match ps[|ps| - 1] case Arg(token) => [token] case _ => []
  }

  function InsOf(ps: seq<Piece>): seq<string> {
    if ps == [] then []
    else InsOf(ps[..|ps| - 1]) + match ps[|ps| - 1] case In(name) => [name] case _ => []
  }

  function OutsOf(ps: seq<Piece>): seq<string> {
    if ps == [] then []
    else OutsOf(ps[..|ps| - 1]) + match ps[|ps| - 1] case Out(name) => [name] case _ => []
  }

  function ErrsOf(ps: seq<Piece>): (targets: seq<StderrTarget>)
    ensures NoRedirect !in targets
  {
    if ps == [] then []
    else
      ErrsOf(ps[..|ps| - 1])
      + match ps[|ps| - 1] case Err(name) => [ToFile(name)] case Merge => [ToStdout] case _ => []
  }

  // A later assignment to the same name wins.
  function VarsOf(assignments: seq<(string, string)>): map<string, string> {
    if assignments == [] then map[]
    else
      var last := assignments[|assignments| - 1];
      VarsOf(assignments[..|assignments| - 1])[last.0 := last.1]
  }

  function AssignTokens(show: Show, assignments: seq<(string, string)>): seq<string> {
    seq(|assignments|, i requires 0 <= i < |assignments| => show(assignments[i].0, assignments[i].1))
  }

  // Each stream is redirected at most once.
  predicate OnceEach(ps: seq<Piece>) {
    |InsOf(ps)| <= 1 && |OutsOf(ps)| <= 1 && |ErrsOf(ps)| <= 1
  }

  // The command as far as its own tokens say; a pipe comes later.
  function Assembled(args: seq<string>, ins: seq<string>, outs: seq<string>, errs: seq<StderrTarget>,
                     vars: map<string, string>): Node
  {
    Command(args, if ins == [] then None else Some(ins[0]), if outs == [] then NoRedirect else ToFile(outs[0]),
            if errs == [] then NoRedirect else errs[0], vars)
  }

  function Built(w: Writing): Node {
    Assembled(ArgsOf(w.pieces), InsOf(w.pieces), OutsOf(w.pieces), ErrsOf(w.pieces), VarsOf(w.assignments))
  }

  function FileOnly(r: StdoutTarget): StdoutTarget {
    if r.ToFile? then r else NoRedirect
  }

  // No token can be taken for something else; the pattern reads the assignments back.
  ghost predicate Unquoted(env: EnvMatch, show: Show, w: Writing) {
    && w.pieces != [] && w.pieces[0].Arg? && env(w.pieces[0].token) == None && w.pieces[0].token != "cd"
    && (forall i :: 1 <= i < |w.pieces| && w.pieces[i].Arg? ==> !IsControl(w.pieces[i].token))
    && (forall i :: 0 <= i < |w.assignments| ==>
          env(show(w.assignments[i].0, w.assignments[i].1)) == Some(w.assignments[i]))
  }

  // The writing says what the command holds, and needs no quoting.
  ghost predicate Spells(env: EnvMatch, show: Show, w: Writing, n: Node)
    requires n.Command?
  {
    && Unquoted(env, show, w)
    && OnceEach(w.pieces)
    && Built(w) == n.(stdout := FileOnly(n.stdout))
  }

  ghost predicate Writable(env: EnvMatch, show: Show, w: Writing, n: Node) {
    match n
    case Command(_, _, _, _, _) => Spells(env, show, w, n)
    case Chdir(dir) => dir.Some? ==> dir.value != "&&"
    case _ => true
  }

  // How each command of a list is written.
  type Layout = nat -> Writing

  ghost predicate AllWritable(env: EnvMatch, show: Show, layout: Layout, nodes: seq<Node>) {
    && env("cd") == None
    && forall i {:trigger Writable(env, show, layout(i), nodes[i])} ::
         0 <= i < |nodes| ==> Writable(env, show, layout(i), nodes[i])
  }

  function NodeTokens(show: Show, w: Writing, n: Node): seq<string> {
    match n
    case Command(_, _, _, _, _) => AssignTokens(show, w.assignments) + PiecesTokens(w.pieces)
    case Chdir(dir) => if dir.Some? then ["cd", dir.value] else ["cd"]
    case Pipe => ["|"]
    case And => ["&&"]
    case Or => ["||"]
  }

  function Flatten(texts: seq<seq<string>>): seq<string> {
    if texts == [] then [] else Flatten(texts[..|texts| - 1]) + texts[|texts| - 1]
  }

  function Texts(show: Show, layout: Layout, nodes: seq<Node>): (r: seq<seq<string>>)
    ensures |r| == |nodes|
  {
    seq(|nodes|, i requires 0 <= i < |nodes| => NodeTokens(show, layout(i), nodes[i]))
  }

  function Tokens(show: Show, layout: Layout, nodes: seq<Node>): seq<string> {
    Flatten(Texts(show, layout, nodes))
  }

  // Steps over more tokens from a given state.
  function StepsFrom(env: EnvMatch, p: Parser, tokens: seq<string>): Option<Parser> {
    if tokens == [] then Some(p)
    else
      match StepsFrom(env, p, tokens[..|tokens| - 1])
      case None => None
      case Some(q) => Step(env, q, tokens[|tokens| - 1])
  }

  lemma {:induction false} StepsAreFromStart(env: EnvMatch, tokens: seq<string>)
    ensures Steps(env, tokens) == StepsFrom(env, START, tokens)
  {
    if tokens != [] { StepsAreFromStart(env, tokens[..|tokens| - 1]); }
  }

  lemma StepsOfLast(env: EnvMatch, p: Parser, first: seq<string>, last: string)
    requires StepsFrom(env, p, first).Some?
    ensures StepsFrom(env, p, first + [last]) == Step(env, StepsFrom(env, p, first).value, last)
  {
    assert (first + [last])[..|first|] == first;
  }

  lemma {:induction false} StepsConcat(env: EnvMatch, p: Parser, a: seq<string>, b: seq<string>)
    requires StepsFrom(env, p, a).Some?
    ensures StepsFrom(env, p, a + b) == StepsFrom(env, StepsFrom(env, p, a).value, b)
    decreases |b|
  {
    if b == [] {
      assert a + b == a;
    } else {
      var n := |b| - 1;
      assert a + b == (a + b[..n]) + [b[n]];
      StepsConcat(env, p, a, b[..n]);
      if StepsFrom(env, p, a + b[..n]).Some? { StepsOfLast(env, p, a + b[..n], b[n]); }
    }
  }

  lemma {:induction false} StepsStopped(env: EnvMatch, p: Parser, a: seq<string>, b: seq<string>)
    requires StepsFrom(env, p, a) == None
    ensures StepsFrom(env, p, a + b) == None
    decreases |b|
  {
    if b == [] {
      assert a + b == a;
    } else {
      assert (a + b)[..|a + b| - 1] == a + b[..|b| - 1];
      StepsStopped(env, p, a, b[..|b| - 1]);
    }
  }

  lemma OneStep(env: EnvMatch, p: Parser, t: string)
    ensures StepsFrom(env, p, [t]) == Step(env, p, t)
  {
    assert [t][..0] == [];
  }

  lemma TwoSteps(env: EnvMatch, p: Parser, t: string, u: string)
    requires Step(env, p, t).Some?
    ensures StepsFrom(env, p, [t, u]) == Step(env, Step(env, p, t).value, u)
  {
    OneStep(env, p, t);
    assert [t, u] == [t] + [u];
    assert [t, u][..1] == [t];
  }

  function Reading(nodes: seq<Node>, c: Node): Parser {
    Parser(COMMAND, Some(c), nodes, map[])
  }

  function Assigned(nodes: seq<Node>, vars: map<string, string>): Parser {
    Parser(BEGIN, None, nodes, vars)
  }

  // Each assignment before the command is added to the environment.
  lemma {:induction false} ReadAssignments(env: EnvMatch, show: Show, nodes: seq<Node>, vars: seq<(string, string)>)
    requires forall i :: 0 <= i < |vars| ==> env(show(vars[i].0, vars[i].1)) == Some(vars[i])
    ensures StepsFrom(env, Assigned(nodes, map[]), AssignTokens(show, vars)) == Some(Assigned(nodes, VarsOf(vars)))
  {
    if vars == [] {
      assert AssignTokens(show, vars) == [];
    } else {
      var n := |vars| - 1;
      ReadAssignments(env, show, nodes, vars[..n]);
      assert AssignTokens(show, vars) == AssignTokens(show, vars[..n]) + [show(vars[n].0, vars[n].1)];
      StepsOfLast(env, Assigned(nodes, map[]), AssignTokens(show, vars[..n]), show(vars[n].0, vars[n].1));
    }
  }

  // What one piece does to the command under way; a second redirection of a stream fails an assertion.
  function WithPiece(c: Node, p: Piece): Option<Node>
    requires c.Command?
  {
    match p
    case Arg(token) => Some(c.(argv := c.argv + [token]))
    case In(name) => if c.stdin != None then None else Some(c.(stdin := Some(name)))
    case Out(name) => if c.stdout != NoRedirect then None else Some(c.(stdout := ToFile(name)))
    case Err(name) => if c.stderr != NoRedirect then None else Some(c.(stderr := ToFile(name)))
    case Merge => if c.stderr != NoRedirect then None else Some(c.(stderr := ToStdout))
  }

  lemma ReadPiece(env: EnvMatch, nodes: seq<Node>, c: Node, p: Piece)
    requires c.Command? && (p.Arg? ==> !IsControl(p.token))
    ensures StepsFrom(env, Reading(nodes, c), PieceTokens(p))
            == match WithPiece(c, p) case None => None case Some(d) => Some(Reading(nodes, d))
  {
    match p
    case Arg(token) => OneStep(env, Reading(nodes, c), token);
    case In(name) => TwoSteps(env, Reading(nodes, c), "<", name);
    case Out(name) => TwoSteps(env, Reading(nodes, c), ">", name);
    case Err(name) => TwoSteps(env, Reading(nodes, c), "2>", name);
    case Merge => OneStep(env, Reading(nodes, c), "2>&1");
  }

  function ArgIn(p: Piece): seq<string> { if p.Arg? then [p.token] else [] }

  function InIn(p: Piece): seq<string> { if p.In? then [p.name] else [] }

  function OutIn(p: Piece): seq<string> { if p.Out? then [p.name] else [] }

  function ErrIn(p: Piece): seq<StderrTarget> {
    if p.Err? then [ToFile(p.name)] else if p.Merge? then [ToStdout] else []
  }

  lemma PieceAppended(ps: seq<Piece>, p: Piece)
    ensures ArgsOf(ps + [p]) == ArgsOf(ps) + ArgIn(p)
    ensures InsOf(ps + [p]) == InsOf(ps) + InIn(p)
    ensures OutsOf(ps + [p]) == OutsOf(ps) + OutIn(p)
    ensures ErrsOf(ps + [p]) == ErrsOf(ps) + ErrIn(p)
  {
    assert (ps + [p])[..|ps|] == ps;
  }

  lemma AssembledStep(args: seq<string>, ins: seq<string>, outs: seq<string>, errs: seq<StderrTarget>,
                      vars: map<string, string>, p: Piece)
    requires |ins| <= 1 && |outs| <= 1 && |errs| <= 1 && NoRedirect !in errs
    ensures WithPiece(Assembled(args, ins, outs, errs, vars), p)
            == if |ins + InIn(p)| <= 1 && |outs + OutIn(p)| <= 1 && |errs + ErrIn(p)| <= 1
               then Some(Assembled(args + ArgIn(p), ins + InIn(p), outs + OutIn(p), errs + ErrIn(p), vars)) else None
  {
    if errs != [] { assert errs[0] in errs; }
    assert args + [] == args && ins + [] == ins && outs + [] == outs && errs + [] == errs;
    var none: seq<string> := [];
    var free: seq<StderrTarget> := [];
    match p
    case Arg(_) =>
    case In(name) => assert none + [name] == [name];
    case Out(name) => assert none + [name] == [name];
    case Err(name) => assert free + [ToFile(name)] == [ToFile(name)];
    case Merge => assert free + [ToStdout] == [ToStdout];
  }

  lemma BuiltStep(w: Writing, p: Piece)
    requires OnceEach(w.pieces)
    ensures var longer := w.(pieces := w.pieces + [p]);
            WithPiece(Built(w), p) == if OnceEach(longer.pieces) then Some(Built(longer)) else None
  {
    PieceAppended(w.pieces, p);
    AssembledStep(ArgsOf(w.pieces), InsOf(w.pieces), OutsOf(w.pieces), ErrsOf(w.pieces), VarsOf(w.assignments), p);
  }

  lemma ReadNextPiece(env: EnvMatch, nodes: seq<Node>, start: Parser, before: seq<string>, w: Writing, p: Piece)
    requires StepsFrom(env, start, before) == if OnceEach(w.pieces) then Some(Reading(nodes, Built(w))) else None
    requires p.Arg? ==> !IsControl(p.token)
    ensures var longer := w.(pieces := w.pieces + [p]);
            StepsFrom(env, start, before + PieceTokens(p))
            == if OnceEach(longer.pieces) then Some(Reading(nodes, Built(longer))) else None
  {
    if OnceEach(w.pieces) {
      BuiltStep(w, p);
      ReadPiece(env, nodes, Built(w), p);
      StepsConcat(env, start, before, PieceTokens(p));
    } else {
      StepsStopped(env, start, before, PieceTokens(p));
      PieceAppended(w.pieces, p);
    }
  }

  lemma ReadName(env: EnvMatch, nodes: seq<Node>, vars: seq<(string, string)>, name: string)
    requires env(name) == None && name != "cd"
    ensures OnceEach([Arg(name)]) && PiecesTokens([Arg(name)]) == [name]
    ensures StepsFrom(env, Assigned(nodes, VarsOf(vars)), [name])
            == Some(Reading(nodes, Built(Writing(vars, [Arg(name)]))))
  {
    var none: seq<Piece> := [];
    assert none + [Arg(name)] == [Arg(name)] && [Arg(name)][..0] == [];
    PieceAppended(none, Arg(name));
    OneStep(env, Assigned(nodes, VarsOf(vars)), name);
  }

  // The pieces may come in any order: reading them fails exactly if a stream is redirected twice.
  lemma {:induction false} ReadPieces(env: EnvMatch, show: Show, nodes: seq<Node>, w: Writing)
    requires Unquoted(env, show, w)
    ensures StepsFrom(env, Assigned(nodes, VarsOf(w.assignments)), PiecesTokens(w.pieces))
            == if OnceEach(w.pieces) then Some(Reading(nodes, Built(w))) else None
    decreases |w.pieces|
  {
    var n := |w.pieces| - 1;
    if n == 0 {
      ReadName(env, nodes, w.assignments, w.pieces[0].token);
      assert w == Writing(w.assignments, [w.pieces[0]]);
    } else {
      var first := w.(pieces := w.pieces[..n]);
      assert w == first.(pieces := first.pieces + [w.pieces[n]]);
      ReadPieces(env, show, nodes, first);
      ReadNextPiece(env, nodes, Assigned(nodes, VarsOf(w.assignments)), PiecesTokens(first.pieces), first, w.pieces[n]);
    }
  }

  // The state after the tokens of an item: the item is under way (its pipe not yet seen).
  function Awaiting(nodes: seq<Node>, n: Node): Parser {
    match n
    case Command(_, _, stdout, _, _) => Reading(nodes, n.(stdout := FileOnly(stdout)))
    case _ => Parser(CHDIR, Some(n), nodes, map[])
  }

  lemma ReadItem(env: EnvMatch, show: Show, nodes: seq<Node>, w: Writing, n: Node)
    requires IsItem(n) && Writable(env, show, w, n) && env("cd") == None
    ensures StepsFrom(env, Parser(BEGIN, None, nodes, map[]), NodeTokens(show, w, n)) == Some(Awaiting(nodes, n))
  {
    var p := Parser(BEGIN, None, nodes, map[]);
    match n
    case Command(_, _, _, _, _) =>
      ReadAssignments(env, show, nodes, w.assignments);
      StepsConcat(env, p, AssignTokens(show, w.assignments), PiecesTokens(w.pieces));
      ReadPieces(env, show, nodes, w);
    case Chdir(dir) =>
      if dir.Some? { TwoSteps(env, p, "cd", dir.value); } else { OneStep(env, p, "cd"); }
  }

  // Reading the tokens of an item, whatever has been read before.
  ghost predicate ReadsAs(env: EnvMatch, text: seq<string>, n: Node) {
    forall nodes: seq<Node> ::
      StepsFrom(env, Parser(BEGIN, None, nodes, map[]), text) == Some(Awaiting(nodes, n))
  }

  ghost predicate TextFor(env: EnvMatch, text: seq<string>, n: Node) {
    match n
    case Pipe => text == ["|"]
    case And => text == ["&&"]
    case Or => text == ["||"]
    case _ => ReadsAs(env, text, n)
  }

  lemma WritableReads(env: EnvMatch, show: Show, w: Writing, n: Node)
    requires Writable(env, show, w, n) && env("cd") == None
    ensures TextFor(env, NodeTokens(show, w, n), n)
  {
    if IsItem(n) {
      forall nodes: seq<Node>
        ensures StepsFrom(env, Parser(BEGIN, None, nodes, map[]), NodeTokens(show, w, n)) == Some(Awaiting(nodes, n))
      {
        ReadItem(env, show, nodes, w, n);
      }
    }
  }

  lemma ReadOp(env: EnvMatch, nodes: seq<Node>, n: Node, op: Node, text: seq<string>)
    requires GoodPair(n, op) && TextFor(env, text, op)
    ensures StepsFrom(env, Awaiting(nodes, n), text) == Some(Parser(BEGIN, None, nodes + [n, op], map[]))
  {
    OneStep(env, Awaiting(nodes, n), text[0]);
  }

  lemma FlattenLast(texts: seq<seq<string>>, text: seq<string>)
    ensures Flatten(texts + [text]) == Flatten(texts) + text
  {
    assert (texts + [text])[..|texts|] == texts;
  }

  lemma ReadOneMoreItem(env: EnvMatch, before: seq<string>, first: seq<Node>, text: seq<string>, n: Node)
    requires StepsFrom(env, START, before) == Some(Parser(BEGIN, None, first, map[]))
    requires ReadsAs(env, text, n)
    ensures StepsFrom(env, START, before + text) == Some(Awaiting(first, n))
  {
    StepsConcat(env, START, before, text);
  }

  // Reading one more item and its operator.
  lemma ReadTwoMore(env: EnvMatch, texts: seq<seq<string>>, first: seq<Node>, t: seq<string>, n: Node,
                    u: seq<string>, op: Node)
    requires StepsFrom(env, START, Flatten(texts)) == Some(Parser(BEGIN, None, first, map[]))
    requires GoodPair(n, op) && TextFor(env, t, n) && TextFor(env, u, op)
    ensures StepsFrom(env, START, Flatten(texts + [t] + [u])) == Some(Parser(BEGIN, None, first + [n, op], map[]))
  {
    FlattenLast(texts, t);
    FlattenLast(texts + [t], u);
    ReadOneMoreItem(env, Flatten(texts), first, t, n);
    ReadOp(env, first, n, op, u);
    StepsConcat(env, START, Flatten(texts) + t, u);
  }

  lemma LastPair(nodes: seq<Node>, k: nat)
    requires Prefix(nodes) && k + 2 == |nodes|
    ensures GoodPair(nodes[k], nodes[k + 1])
  {
    assert NodeOk(nodes, k) && NodeOk(nodes, k + 1);
  }

  lemma LastTwo<T>(s: seq<T>, k: nat)
    requires k + 2 == |s|
    ensures s == s[..k] + [s[k]] + [s[k + 1]] == s[..k] + [s[k], s[k + 1]]
  {
  }

  // Each node has its text.
  ghost predicate Spelled(env: EnvMatch, texts: seq<seq<string>>, nodes: seq<Node>) {
    |texts| == |nodes|
    && forall i {:trigger TextFor(env, texts[i], nodes[i])} :: 0 <= i < |nodes| ==> TextFor(env, texts[i], nodes[i])
  }

  lemma SpelledPart(env: EnvMatch, texts: seq<seq<string>>, nodes: seq<Node>, k: nat)
    requires Spelled(env, texts, nodes) && k <= |nodes|
    ensures Spelled(env, texts[..k], nodes[..k])
  {
    forall i | 0 <= i < k ensures TextFor(env, texts[..k][i], nodes[..k][i]) {
      assert TextFor(env, texts[i], nodes[i]);
    }
  }

  lemma {:induction false} ReadPrefix(env: EnvMatch, texts: seq<seq<string>>, nodes: seq<Node>)
    requires Prefix(nodes) && Spelled(env, texts, nodes)
    ensures StepsFrom(env, START, Flatten(texts)) == Some(Parser(BEGIN, None, nodes, map[]))
  {
    if nodes != [] {
      var k := |nodes| - 2;
      LastTwo(nodes, k);
      LastTwo(texts, k);
      LastPair(nodes, k);
      PrefixShrinks(nodes, k);
      SpelledPart(env, texts, nodes, k);
      ReadPrefix(env, texts[..k], nodes[..k]);
      assert TextFor(env, texts[k], nodes[k]) && TextFor(env, texts[k + 1], nodes[k + 1]);
      ReadTwoMore(env, texts[..k], nodes[..k], texts[k], nodes[k], texts[k + 1], nodes[k + 1]);
    }
  }

  lemma WellFormedSplits(nodes: seq<Node>)
    requires WellFormed(nodes)
    ensures Prefix(nodes[..|nodes| - 1]) && IsItem(nodes[|nodes| - 1])
    ensures nodes[|nodes| - 1].Command? ==> nodes[|nodes| - 1].stdout != ToPipe
  {
    assert NodeOk(nodes, |nodes| - 1);
    PrefixShrinks(nodes, |nodes| - 1);
  }

  lemma ParseEnds(env: EnvMatch, tokens: seq<string>, nodes: seq<Node>, n: Node)
    requires Steps(env, tokens) == Some(Awaiting(nodes, n)) && IsItem(n)
    requires n.Command? ==> n.stdout != ToPipe
    ensures Parse(env, tokens) == Some(nodes + [n])
  {
    assert Awaiting(nodes, n).current == Some(n);
  }

  lemma ParseLast(env: EnvMatch, texts: seq<seq<string>>, first: seq<Node>, text: seq<string>, last: Node)
    requires Prefix(first) && Spelled(env, texts, first) && TextFor(env, text, last)
    requires IsItem(last) && (last.Command? ==> last.stdout != ToPipe)
    ensures Parse(env, Flatten(texts + [text])) == Some(first + [last])
  {
    FlattenLast(texts, text);
    ReadPrefix(env, texts, first);
    ReadOneMoreItem(env, Flatten(texts), first, text, last);
    StepsAreFromStart(env, Flatten(texts) + text);
    ParseEnds(env, Flatten(texts) + text, first, last);
  }

  lemma ParseTexts(env: EnvMatch, texts: seq<seq<string>>, nodes: seq<Node>)
    requires WellFormed(nodes) && Spelled(env, texts, nodes)
    ensures Parse(env, Flatten(texts)) == Some(nodes)
  {
    var k := |nodes| - 1;
    assert nodes == nodes[..k] + [nodes[k]] && texts == texts[..k] + [texts[k]];
    WellFormedSplits(nodes);
    SpelledPart(env, texts, nodes, k);
    assert TextFor(env, texts[k], nodes[k]);
    ParseLast(env, texts[..k], nodes[..k], texts[k], nodes[k]);
  }

  // The order of redirections, arguments and assignments to different names does not matter: however a
  // well-formed list is written down, parsing gives the list back.
  lemma ParseTokens(env: EnvMatch, show: Show, layout: Layout, nodes: seq<Node>)
    requires WellFormed(nodes) && AllWritable(env, show, layout, nodes)
    ensures Parse(env, Tokens(show, layout, nodes)) == Some(nodes)
  {
    var texts := Texts(show, layout, nodes);
    forall i | 0 <= i < |nodes| ensures TextFor(env, texts[i], nodes[i]) {
      WritableReads(env, show, layout(i), nodes[i]);
    }
    ParseTexts(env, texts, nodes);
  }

  // ---------- What is rejected ----------

  lemma TokenRejected(env: EnvMatch, before: seq<string>, p: Parser, token: string, after: seq<string>)
    requires StepsFrom(env, START, before) == Some(p) && Step(env, p, token) == None
    ensures Parse(env, before + [token] + after) == None
  {
    StepsOfLast(env, START, before, token);
    StepsStopped(env, START, before + [token], after);
    StepsAreFromStart(env, before + [token] + after);
  }

  // A command whose output goes to a file cannot be piped, whatever precedes and follows.
  lemma FileAndPipeRejected(env: EnvMatch, before: seq<string>, nodes: seq<Node>, c: Node, after: seq<string>)
    requires c.Command? && c.stdout != NoRedirect && StepsFrom(env, START, before) == Some(Reading(nodes, c))
    ensures Parse(env, before + ["|"] + after) == None
  {
    TokenRejected(env, before, Reading(nodes, c), "|", after);
  }

  // A cd takes no second directory ...
  lemma SecondDirRejected(env: EnvMatch, before: seq<string>, nodes: seq<Node>, dir: string, token: string,
                          after: seq<string>)
    requires StepsFrom(env, START, before) == Some(Awaiting(nodes, Chdir(Some(dir)))) && token != "&&"
    ensures Parse(env, before + [token] + after) == None
  {
    TokenRejected(env, before, Awaiting(nodes, Chdir(Some(dir))), token, after);
  }

  // ... and no assignments.
  lemma AssignmentToCdRejected(env: EnvMatch, before: seq<string>, nodes: seq<Node>, vars: map<string, string>,
                               after: seq<string>)
    requires StepsFrom(env, START, before) == Some(Assigned(nodes, vars)) && vars != map[] && env("cd") == None
    ensures Parse(env, before + ["cd"] + after) == None
  {
    TokenRejected(env, before, Assigned(nodes, vars), "cd", after);
  }

  // ---------- Every command has such a writing ----------

  function ArgPieces(argv: seq<string>): (ps: seq<Piece>)
    ensures |ps| == |argv| && forall i :: 0 <= i < |ps| ==> ps[i] == Arg(argv[i])
  {
    seq(|argv|, i requires 0 <= i < |argv| => Arg(argv[i]))
  }

  lemma {:induction false} OnlyArguments(argv: seq<string>)
    ensures ArgsOf(ArgPieces(argv)) == argv
    ensures InsOf(ArgPieces(argv)) == [] && OutsOf(ArgPieces(argv)) == [] && ErrsOf(ArgPieces(argv)) == []
  {
    if argv != [] {
      var n := |argv| - 1;
      OnlyArguments(argv[..n]);
      assert ArgPieces(argv)[..n] == ArgPieces(argv[..n]) && argv == argv[..n] + [argv[n]];
    }
  }

  // The arguments first, then pieces that redirect these streams.
  ghost predicate PiecesHold(ps: seq<Piece>, argv: seq<string>, ins: seq<string>, outs: seq<string>,
                             errs: seq<StderrTarget>)
  {
    && ArgPieces(argv) <= ps
    && (forall i :: |argv| <= i < |ps| ==> !ps[i].Arg?)
    && ArgsOf(ps) == argv && InsOf(ps) == ins && OutsOf(ps) == outs && ErrsOf(ps) == errs
  }

  lemma OneMoreRedirect(ps: seq<Piece>, argv: seq<string>, ins: seq<string>, outs: seq<string>,
                        errs: seq<StderrTarget>, p: Piece)
    requires PiecesHold(ps, argv, ins, outs, errs) && !p.Arg?
    ensures PiecesHold(ps + [p], argv, ins + InIn(p), outs + OutIn(p), errs + ErrIn(p))
  {
    PieceAppended(ps, p);
  }

  lemma {:induction false} AssignmentsFor(vars: map<string, string>) returns (assignments: seq<(string, string)>)
    ensures VarsOf(assignments) == vars
    ensures forall i :: 0 <= i < |assignments| ==>
              assignments[i].0 in vars && vars[assignments[i].0] == assignments[i].1
    decreases |vars.Keys|
  {
    if vars == map[] {
      return [];
    }
    var name :| name in vars;
    assert (vars - {name}).Keys == vars.Keys - {name};
    var first := AssignmentsFor(vars - {name});
    assignments := first + [(name, vars[name])];
    assert assignments[..|first|] == first;
    assert (vars - {name})[name := vars[name]] == vars;
  }

  function StdinOf(n: Node): seq<string>
    requires n.Command?
  {
    if n.stdin.Some? then [n.stdin.value] else []
  }

  function StdoutOf(n: Node): seq<string>
    requires n.Command?
  {
    if n.stdout.ToFile? then [n.stdout.name] else []
  }

  function StderrOf(n: Node): seq<StderrTarget>
    requires n.Command?
  {
    if n.stderr == NoRedirect then [] else [n.stderr]
  }

  lemma OneMoreOut(ps: seq<Piece>, argv: seq<string>, ins: seq<string>, name: string)
    requires PiecesHold(ps, argv, ins, [], [])
    ensures PiecesHold(ps + [Out(name)], argv, ins, [name], [])
  {
    PieceAppended(ps, Out(name));
  }

  lemma AddStdin(n: Node) returns (ps: seq<Piece>)
    requires n.Command?
    ensures PiecesHold(ps, n.argv, StdinOf(n), [], [])
  {
    OnlyArguments(n.argv);
    ps := ArgPieces(n.argv);
    if n.stdin.Some? {
      OneMoreRedirect(ps, n.argv, [], [], [], In(n.stdin.value));
      ps := ps + [In(n.stdin.value)];
    }
  }

  lemma AddStdout(n: Node) returns (ps: seq<Piece>)
    requires n.Command?
    ensures PiecesHold(ps, n.argv, StdinOf(n), StdoutOf(n), [])
  {
    ps := AddStdin(n);
    if n.stdout.ToFile? {
      OneMoreOut(ps, n.argv, StdinOf(n), n.stdout.name);
      ps := ps + [Out(n.stdout.name)];
    }
  }

  lemma PiecesFor(n: Node) returns (ps: seq<Piece>)
    requires n.Command?
    ensures PiecesHold(ps, n.argv, StdinOf(n), StdoutOf(n), StderrOf(n))
  {
    ps := AddStdout(n);
    if n.stderr != NoRedirect {
      var p := if n.stderr.ToFile? then Err(n.stderr.name) else Merge;
      OneMoreRedirect(ps, n.argv, StdinOf(n), StdoutOf(n), [], p);
      ps := ps + [p];
    }
  }

  lemma AssembledAgain(n: Node)
    requires n.Command?
    ensures Assembled(n.argv, StdinOf(n), StdoutOf(n), StderrOf(n), n.env) == n.(stdout := FileOnly(n.stdout))
  {
  }

  lemma PlainPieces(env: EnvMatch, argv: seq<string>, ps: seq<Piece>)
    requires argv != [] && ArgPieces(argv) <= ps && forall i :: |argv| <= i < |ps| ==> !ps[i].Arg?
    requires forall i :: 1 <= i < |argv| ==> !IsControl(argv[i])
    ensures ps != [] && ps[0] == Arg(argv[0])
    ensures forall i :: 1 <= i < |ps| && ps[i].Arg? ==> !IsControl(ps[i].token)
  {
    forall i | 1 <= i < |ps| && ps[i].Arg? ensures !IsControl(ps[i].token) {
      assert ps[i] == ArgPieces(argv)[i];
    }
  }

  // A command whose arguments cannot be taken for operators, and whose assignments the pattern reads back, can
  // be written down.
  lemma CommandHasWriting(env: EnvMatch, show: Show, n: Node) returns (w: Writing)
    requires n.Command? && n.argv != [] && env(n.argv[0]) == None && n.argv[0] != "cd"
    requires forall i :: 1 <= i < |n.argv| ==> !IsControl(n.argv[i])
    requires forall name :: name in n.env ==> env(show(name, n.env[name])) == Some((name, n.env[name]))
    ensures Writable(env, show, w, n)
  {
    var vars := AssignmentsFor(n.env);
    var ps := PiecesFor(n);
    PlainPieces(env, n.argv, ps);
    AssembledAgain(n);
    w := Writing(vars, ps);
  }

  // The node can be written without quoting.
  ghost predicate NeedsNoQuoting(env: EnvMatch, show: Show, n: Node) {
    match n
    case Command(argv, _, _, _, vars) =>
      && argv != [] && env(argv[0]) == None && argv[0] != "cd"
      && (forall i :: 1 <= i < |argv| ==> !IsControl(argv[i]))
      && (forall name :: name in vars ==> env(show(name, vars[name])) == Some((name, vars[name])))
    case Chdir(dir) => dir != Some("&&")
    case _ => true
  }

  lemma NodeHasWriting(env: EnvMatch, show: Show, n: Node) returns (w: Writing)
    requires NeedsNoQuoting(env, show, n)
    ensures Writable(env, show, w, n)
  {
    w := Writing([], []);
    if n.Command? { w := CommandHasWriting(env, show, n); }
  }

  lemma {:induction false} ListHasWritings(env: EnvMatch, show: Show, nodes: seq<Node>) returns (ws: seq<Writing>)
    requires forall i :: 0 <= i < |nodes| ==> NeedsNoQuoting(env, show, nodes[i])
    ensures |ws| == |nodes| && forall i :: 0 <= i < |nodes| ==> Writable(env, show, ws[i], nodes[i])
  {
    ws := [];
    if nodes != [] {
      var first := ListHasWritings(env, show, nodes[..|nodes| - 1]);
      var last := NodeHasWriting(env, show, nodes[|nodes| - 1]);
      ws := first + [last];
    }
  }

  // So every well-formed list of such nodes is the parse of some tokens.
  lemma ParseIsOnto(env: EnvMatch, show: Show, nodes: seq<Node>) returns (tokens: seq<string>)
    requires WellFormed(nodes) && env("cd") == None
    requires forall i :: 0 <= i < |nodes| ==> NeedsNoQuoting(env, show, nodes[i])
    ensures Parse(env, tokens) == Some(nodes)
  {
    var ws := ListHasWritings(env, show, nodes);
    var layout: Layout := (i: nat) => if i < |ws| then ws[i] else Writing([], []);
    assert forall i :: 0 <= i < |nodes| ==> layout(i) == ws[i];
    ParseTokens(env, show, layout, nodes);
    tokens := Tokens(show, layout, nodes);
  }
}
