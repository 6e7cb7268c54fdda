// The class Pipeline of waf-tools/shellcmd.py (lines 46-50, 96-104, 121-346): parsing into its
// fields, and running. Processes and files are numbered; exit codes come from the caller.

module Shell {
  import opened Sequences
  import opened ShellSyntax
  import opened AndOrLists

  datatype Stream = Inherit | Handle(h: nat) | DevNull | NewPipe | OutputOf(p: nat) | MergedWithStdout

  // The parent's environment as it is, or a copy of it updated with assignments.
  datatype Environment = Inherited | Updated(vars: map<string, string>)

  // A started process: the position of its command, and what Popen was given.
  datatype Proc = Proc(node: nat, stdin: Stream, stdout: Stream, stderr: Stream, dirs: seq<string>, env: Environment)

  datatype File = File(name: string, writing: bool)

  // What run does outside: files opened (numbered 0, 1, ...) and closed, processes started and
  // waited for.
  class World {
    var openings: seq<File>
    var closed: seq<nat>
    var procs: seq<Proc>
    var waited: seq<nat>

    constructor ()
      ensures openings == [] && closed == [] && procs == [] && waited == []
    {
      openings, closed, procs, waited := [], [], [], [];
    }

    method Open(name: string, writing: bool) returns (s: Stream)
      modifies this`openings
      ensures s == Handle(|old(openings)|) && openings == old(openings) + [File(name, writing)]
    {
      s := Handle(|openings|);
      openings := openings + [File(name, writing)];
    }
  }

  function Range(lo: nat, hi: nat): (r: seq<nat>)
    requires lo <= hi
    ensures |r| == hi - lo && forall i :: 0 <= i < |r| ==> r[i] == lo + i
  {
    seq(hi - lo, i requires 0 <= i < hi - lo => lo + i)
  }

  lemma RangeConcat(base: seq<nat>, a: nat, b: nat, c: nat)
    requires a <= b <= c
    ensures base + Range(a, b) + Range(b, c) == base + Range(a, c)
  {
  }

  // The handles among the files to close; dev_null is not closed.
  function Handles(files: seq<Stream>): seq<nat> {
    if files == [] then []
    else
      var last := files[|files| - 1];
      Handles(files[..|files| - 1]) + if last.Handle? then [last.h] else []
  }

  lemma HandlesAppend(files: seq<Stream>, s: Stream)
    ensures Handles(files + [s]) == Handles(files) + if s.Handle? then [s.h] else []
  {
    assert (files + [s])[..|files|] == files;
  }

  // The positions of the commands that are started, in order.
  function Executed(nodes: seq<Node>, i: nat, codes: Codes): seq<nat>
    decreases |nodes| - i
  {
    if i >= |nodes| then []
    else
      match nodes[i]
      case Chdir(dir) =>
        if i + 1 >= |nodes| || nodes[i + 1] != And || dir == None then [] else Executed(nodes, i + 2, codes)
      case Command(_, _, _, _, _) =>
        if i + 1 >= |nodes| || (nodes[i + 1] == Or && codes(i) == 0) || (nodes[i + 1] == And && codes(i) != 0)
        then [i]
        else [i] + Executed(nodes, i + 2, codes)
      case _ => []
  }

  // What is at j lets the run go on: a cd with a directory, or a command that ends with 0 before && and with
  // something else before ||.
  predicate GoesOn(nodes: seq<Node>, j: nat, codes: Codes) {
    j + 1 < |nodes| &&
    match nodes[j]
    case Chdir(dir) => dir.Some?
    case Command(_, _, _, _, _) => (nodes[j + 1] == And ==> codes(j) == 0) && (nodes[j + 1] == Or ==> codes(j) != 0)
    case _ => false
  }

  ghost predicate AllGoOn(nodes: seq<Node>, i: nat, k: nat, codes: Codes) {
    forall j {:trigger GoesOn(nodes, j, codes)} :: i <= j < k && j % 2 == 0 ==> GoesOn(nodes, j, codes)
  }

  lemma FirstGoesOn(nodes: seq<Node>, i: nat, k: nat, codes: Codes)
    requires i < k && i % 2 == 0 && k % 2 == 0
    ensures AllGoOn(nodes, i, k, codes) <==> GoesOn(nodes, i, codes) && AllGoOn(nodes, i + 2, k, codes)
  {
  }

  lemma ExecutedStep(nodes: seq<Node>, i: nat, codes: Codes)
    requires WellFormed(nodes) && i < |nodes| && i % 2 == 0
    ensures Executed(nodes, i, codes)
            == (if nodes[i].Command? then [i] else [])
               + if GoesOn(nodes, i, codes) then Executed(nodes, i + 2, codes) else []
  {
    assert NodeOk(nodes, i);
    if i + 1 < |nodes| { assert NodeOk(nodes, i + 1); }
  }

  lemma {:induction false} ExecutedFrom(nodes: seq<Node>, i: nat, codes: Codes, k: nat)
    requires k in Executed(nodes, i, codes) && i % 2 == 0
    ensures i <= k < |nodes| && k % 2 == 0 && nodes[k].Command?
    decreases |nodes| - i
  {
    if k in Executed(nodes, i + 2, codes) { ExecutedFrom(nodes, i + 2, codes, k); }
  }

  // A command is started exactly if everything before it lets the run go on.
  lemma {:induction false} ExecutedIff(nodes: seq<Node>, i: nat, codes: Codes, k: nat)
    requires WellFormed(nodes) && i < |nodes| && i % 2 == 0 && k % 2 == 0 && i <= k < |nodes|
    ensures k in Executed(nodes, i, codes) <==> nodes[k].Command? && AllGoOn(nodes, i, k, codes)
    decreases |nodes| - i
  {
    ExecutedStep(nodes, i, codes);
    if k == i {
      if i in Executed(nodes, i + 2, codes) { ExecutedFrom(nodes, i + 2, codes, i); }
    } else {
      FirstGoesOn(nodes, i, k, codes);
      ExecutedIff(nodes, i + 2, codes, k);
    }
  }

  // Commands are started in the order of the list.
  lemma {:induction false} ExecutedInOrder(nodes: seq<Node>, i: nat, codes: Codes)
    ensures Ascending(Executed(nodes, i, codes))
    ensures forall k :: k in Executed(nodes, i, codes) ==> k >= i
    decreases |nodes| - i
  {
    if i < |nodes| {
      var rest := Executed(nodes, i + 2, codes);
      ExecutedInOrder(nodes, i + 2, codes);
      forall k | 0 <= k < |rest| ensures rest[k] > i { assert rest[k] in rest; }
    }
  }

  // The code returned is that of the command started last.
  lemma {:induction false} LastStartedDecides(nodes: seq<Node>, i: nat, codes: Codes)
    requires Evaluate(nodes, i, codes).Returned?
    ensures var started := Executed(nodes, i, codes);
            started != [] && Evaluate(nodes, i, codes) == Returned(codes(started[|started| - 1]))
    decreases |nodes| - i
  {
    if i + 2 < |nodes| && Evaluate(nodes, i, codes) == Evaluate(nodes, i + 2, codes)
       && Evaluate(nodes, i + 2, codes).Returned? {
      LastStartedDecides(nodes, i + 2, codes);
    }
  }

  function NodesOf(procs: seq<Proc>): seq<nat> {
    seq(|procs|, i requires 0 <= i < |procs| => procs[i].node)
  }

  // The command at i comes after a |, possibly with a cd in between.
  predicate PipedInto(nodes: seq<Node>, i: nat) {
    i >= 2 && i <= |nodes| &&
    (nodes[i - 1] == Pipe || (nodes[i - 1] == And && nodes[i - 2].Chdir? && PipedInto(nodes, i - 2)))
  }

  // Since the last | before the command there are only cds.
  lemma {:induction false} PipedIntoMeans(nodes: seq<Node>, i: nat)
    requires WellFormed(nodes) && i < |nodes| && i % 2 == 0
    ensures PipedInto(nodes, i) <==>
              exists p :: 0 <= p < i && nodes[p] == Pipe && forall j :: p < j < i ==> nodes[j].Chdir? || nodes[j] == And
  {
    if i >= 2 {
      PipedIntoMeans(nodes, i - 2);
      assert NodeOk(nodes, i - 1) && NodeOk(nodes, i - 2);
    }
  }

  // The directories of the cds before a position; they apply to everything after them.
  function DirsBefore(nodes: seq<Node>, i: nat): seq<string> {
    if i < 2 || i - 2 >= |nodes| then []
    else DirsBefore(nodes, i - 2) + match nodes[i - 2] case Chdir(Some(dir)) => [dir] case _ => []
  }

  // dirs are the directories of all cds before a position, in order; at lists where these cds stand.
  ghost predicate DirsAt(nodes: seq<Node>, i: nat, at: seq<nat>, dirs: seq<string>) {
    && Ascending(at)
    && (forall j: nat :: j in at <==> j < i && j < |nodes| && nodes[j].Chdir? && nodes[j].dir.Some?)
    && |dirs| == |at|
    && forall k :: 0 <= k < |at| ==> at[k] < |nodes| && nodes[at[k]] == Chdir(Some(dirs[k]))
  }

  lemma DirsAfterCd(nodes: seq<Node>, i: nat, at: seq<nat>, dirs: seq<string>, dir: string)
    requires i + 1 < |nodes| && nodes[i] == Chdir(Some(dir)) && !nodes[i + 1].Chdir? && DirsAt(nodes, i, at, dirs)
    ensures DirsAt(nodes, i + 2, at + [i], dirs + [dir])
  {
    AscendingAppend(at, i);
  }

  lemma DirsAfterOther(nodes: seq<Node>, i: nat, at: seq<nat>, dirs: seq<string>)
    requires i + 1 < |nodes| && !(nodes[i].Chdir? && nodes[i].dir.Some?) && !nodes[i + 1].Chdir?
    requires DirsAt(nodes, i, at, dirs)
    ensures DirsAt(nodes, i + 2, at, dirs)
  {
  }

  lemma DirsBeforeNext(nodes: seq<Node>, i: nat)
    requires i < |nodes|
    ensures DirsBefore(nodes, i + 2)
            == DirsBefore(nodes, i) + if nodes[i].Chdir? && nodes[i].dir.Some? then [nodes[i].dir.value] else []
  {
  }

  lemma {:induction false} DirsInOrder(nodes: seq<Node>, i: nat) returns (at: seq<nat>)
    requires WellFormed(nodes) && i < |nodes| && i % 2 == 0
    ensures DirsAt(nodes, i, at, DirsBefore(nodes, i))
  {
    if i < 2 {
      return [];
    }
    at := DirsInOrder(nodes, i - 2);
    var dirs, cd := DirsBefore(nodes, i - 2), nodes[i - 2];
    assert NodeOk(nodes, i - 1);
    DirsBeforeNext(nodes, i - 2);
    if cd.Chdir? && cd.dir.Some? {
      DirsAfterCd(nodes, i - 2, at, dirs, cd.dir.value);
      at := at + [i - 2];
    } else {
      DirsAfterOther(nodes, i - 2, at, dirs);
    }
  }

  // What a process started with this environment finds in it.
  function Effective(environ: map<string, string>, env: Environment): map<string, string> {
    match env
    case Inherited => environ
    case Updated(vars) => environ + vars
  }

  predicate IsFile(s: Stream, f: File, openings: seq<File>) {
    s.Handle? && s.h < |openings| && openings[s.h] == f
  }

  // The stream is the one a redirection of stdout or stderr asks for.
  predicate OutRight(target: Redirect, s: Stream, openings: seq<File>) {
    match target
    case NoRedirect => s == Inherit
    case ToPipe => s == NewPipe
    case ToStdout => s == MergedWithStdout
    case ToFile(name) =>
      if name in ["NUL:", "/dev/null"] then s == DevNull else IsFile(s, File(name, true), openings)
  }

  // The null device is never opened; every other name is opened for writing under that very name.
  lemma RedirectedTo(name: string, s: Stream, openings: seq<File>)
    requires OutRight(ToFile(name), s, openings)
    ensures name == "/dev/null" || name == "NUL:" <==> s == DevNull
    ensures name != "/dev/null" && name != "NUL:" ==>
              s.Handle? && s.h < |openings| && openings[s.h].name == name && openings[s.h].writing
  {
  }

  predicate InRight(stdin: Option<string>, s: Stream, openings: seq<File>) {
    match stdin
    case None => s == Inherit
    case Some(name) => IsFile(s, File(name, false), openings)
  }

  // The process sees the assignments before its command on top of the parent's environment, and nothing
  // else, whatever that environment is.
  ghost predicate EnvRight(vars: map<string, string>, env: Environment) {
    forall environ :: Effective(environ, env) == environ + vars
  }

  // A process runs its own command, in the directory reached, with the streams and the environment asked
  // for; after a | it reads from the process started just before it, which really pipes.
  ghost predicate RunsRight(nodes: seq<Node>, procs: seq<Proc>, k: nat, openings: seq<File>)
    requires k < |procs|
  {
    var q := procs[k];
    && q.node < |nodes| && nodes[q.node].Command?
    && q.dirs == DirsBefore(nodes, q.node)
    && EnvRight(nodes[q.node].env, q.env)
    && OutRight(nodes[q.node].stdout, q.stdout, openings) && OutRight(nodes[q.node].stderr, q.stderr, openings)
    && if PipedInto(nodes, q.node)
       then k >= 1 && q.stdin == OutputOf(k - 1) && procs[k - 1].stdout == NewPipe
       else InRight(nodes[q.node].stdin, q.stdin, openings)
  }

  // The variables of run: the position reached, state == PIPE, piped_commands, files_to_close, cwd.
  datatype Running = Running(at: nat, piping: bool, piped: seq<nat>, files: seq<Stream>, dirs: seq<string>)

  datatype Turn = Stop(code: int) | Next(st: Running)

  // The command at i ends the run: it is the last one, or && or || short-circuits after it.
  predicate Decides(nodes: seq<Node>, i: nat, codes: Codes)
    requires i < |nodes|
  {
    i + 1 >= |nodes| || (nodes[i + 1] == Or && codes(i) == 0) || (nodes[i + 1] == And && codes(i) != 0)
  }

  // What Popen is given for the command at a position, after the processes before it.
  ghost predicate StartedRight(nodes: seq<Node>, before: seq<Proc>, q: Proc, at: nat, piping: bool,
                               dirs: seq<string>, openings: seq<File>)
    requires at < |nodes| && nodes[at].Command?
  {
    && q.node == at && q.dirs == dirs && EnvRight(nodes[at].env, q.env)
    && OutRight(nodes[at].stdout, q.stdout, openings) && OutRight(nodes[at].stderr, q.stderr, openings)
    && (!piping ==> InRight(nodes[at].stdin, q.stdin, openings))
    && (piping && |before| > 0 && before[|before| - 1].stdout == NewPipe ==> q.stdin == OutputOf(|before| - 1))
  }

  function AfterCd(st: Running, dir: string): Running {
    st.(dirs := st.dirs + [dir], at := st.at + 2)
  }

  // The processes are right so far, and the flag PIPE and the directory say what comes before st.at.
  ghost predicate Piping(nodes: seq<Node>, procs: seq<Proc>, openings: seq<File>, st: Running, first: nat) {
    && first <= |procs|
    && st.dirs == DirsBefore(nodes, st.at)
    && (st.piping <==> PipedInto(nodes, st.at))
    && (st.piping ==> |procs| > first && procs[|procs| - 1].stdout == NewPipe)
    && forall k :: first <= k < |procs| ==> RunsRight(nodes, procs, k, openings)
  }

  // What is left to evaluate and to start, and the processes.
  ghost predicate OnTrack(nodes: seq<Node>, procs: seq<Proc>, openings: seq<File>, st: Running, first: nat,
                          codes: Codes)
  {
    && first <= |procs|
    && Evaluate(nodes, st.at, codes) == Evaluate(nodes, 0, codes)
    && NodesOf(procs[first..]) + Executed(nodes, st.at, codes) == Executed(nodes, 0, codes)
    && (WellFormed(nodes) ==> st.at % 2 == 0 && Piping(nodes, procs, openings, st, first))
  }

  lemma PipedAfterCd(nodes: seq<Node>, at: nat)
    requires WellFormed(nodes) && at % 2 == 0 && at + 1 < |nodes| && nodes[at].Chdir? && nodes[at + 1] == And
    ensures PipedInto(nodes, at + 2) <==> PipedInto(nodes, at)
  {
    if at >= 2 { assert NodeOk(nodes, at - 1); }
  }

  lemma PipingAfterCd(nodes: seq<Node>, procs: seq<Proc>, openings: seq<File>, st: Running, first: nat)
    requires WellFormed(nodes) ==> st.at % 2 == 0 && Piping(nodes, procs, openings, st, first)
    requires st.at + 1 < |nodes| && nodes[st.at].Chdir? && nodes[st.at].dir.Some? && nodes[st.at + 1] == And
    ensures var next := AfterCd(st, nodes[st.at].dir.value);
            WellFormed(nodes) ==> next.at % 2 == 0 && Piping(nodes, procs, openings, next, first)
  {
    if WellFormed(nodes) {
      PipedAfterCd(nodes, st.at);
    }
  }

  lemma CdGoesOn(nodes: seq<Node>, at: nat, codes: Codes)
    requires at + 1 < |nodes| && nodes[at].Chdir? && nodes[at].dir.Some? && nodes[at + 1] == And
    ensures Evaluate(nodes, at, codes) == Evaluate(nodes, at + 2, codes)
    ensures Executed(nodes, at, codes) == Executed(nodes, at + 2, codes)
  {
  }

  lemma TrackMoves(nodes: seq<Node>, procs: seq<Proc>, openings: seq<File>, st: Running, next: Running, first: nat,
                   codes: Codes)
    requires OnTrack(nodes, procs, openings, st, first, codes)
    requires Evaluate(nodes, st.at, codes) == Evaluate(nodes, next.at, codes)
    requires Executed(nodes, st.at, codes) == Executed(nodes, next.at, codes)
    requires WellFormed(nodes) ==> next.at % 2 == 0 && Piping(nodes, procs, openings, next, first)
    ensures OnTrack(nodes, procs, openings, next, first, codes)
  {
  }

  lemma TrackAfterCd(nodes: seq<Node>, procs: seq<Proc>, openings: seq<File>, st: Running, first: nat, codes: Codes)
    requires OnTrack(nodes, procs, openings, st, first, codes)
    requires st.at + 1 < |nodes| && nodes[st.at].Chdir? && nodes[st.at].dir.Some? && nodes[st.at + 1] == And
    ensures OnTrack(nodes, procs, openings, AfterCd(st, nodes[st.at].dir.value), first, codes)
  {
    CdGoesOn(nodes, st.at, codes);
    PipingAfterCd(nodes, procs, openings, st, first);
    TrackMoves(nodes, procs, openings, st, AfterCd(st, nodes[st.at].dir.value), first, codes);
  }

  lemma StillRight(nodes: seq<Node>, procs: seq<Proc>, openings: seq<File>, q: Proc, more: seq<File>, k: nat)
    requires k < |procs| && openings <= more && RunsRight(nodes, procs, k, openings)
    ensures RunsRight(nodes, procs + [q], k, more)
  {
  }

  lemma PipingAfterCommand(nodes: seq<Node>, procs: seq<Proc>, openings: seq<File>, q: Proc, more: seq<File>,
                           st: Running, first: nat)
    requires WellFormed(nodes) && Piping(nodes, procs, openings, st, first) && st.at % 2 == 0 && openings <= more
    requires st.at < |nodes| && nodes[st.at].Command? && StartedRight(nodes, procs, q, st.at, st.piping, st.dirs, more)
    ensures forall k :: first <= k < |procs| + 1 ==> RunsRight(nodes, procs + [q], k, more)
    ensures st.at + 1 < |nodes| ==>
              Piping(nodes, procs + [q], more, st.(at := st.at + 2, piping := nodes[st.at + 1] == Pipe), first)
  {
    forall k | first <= k < |procs| + 1 ensures RunsRight(nodes, procs + [q], k, more) {
      if k < |procs| { StillRight(nodes, procs, openings, q, more, k); }
    }
    assert NodeOk(nodes, st.at);
    assert q.stdout == NewPipe <==> nodes[st.at].stdout == ToPipe;
  }

  lemma ExecutedAfterCommand(nodes: seq<Node>, before: seq<Proc>, q: Proc, at: nat, first: nat, codes: Codes)
    requires first <= |before| && at < |nodes| && nodes[at].Command? && q.node == at
    ensures Decides(nodes, at, codes) ==>
              NodesOf((before + [q])[first..]) == NodesOf(before[first..]) + Executed(nodes, at, codes)
    ensures !Decides(nodes, at, codes) ==>
              NodesOf((before + [q])[first..]) + Executed(nodes, at + 2, codes)
              == NodesOf(before[first..]) + Executed(nodes, at, codes)
  {
    assert NodesOf((before + [q])[first..]) == NodesOf(before[first..]) + [at];
  }

  lemma EvaluateAfterCommand(nodes: seq<Node>, at: nat, codes: Codes)
    requires at < |nodes| && nodes[at].Command?
    ensures Evaluate(nodes, at, codes)
            == if Decides(nodes, at, codes) then Returned(codes(at)) else Evaluate(nodes, at + 2, codes)
  {
  }

  // The command decides: nothing else is started.
  lemma TrackEnds(nodes: seq<Node>, before: seq<Proc>, openings: seq<File>, q: Proc, more: seq<File>, st: Running,
                  first: nat, codes: Codes)
    requires OnTrack(nodes, before, openings, st, first, codes) && openings <= more
    requires st.at < |nodes| && nodes[st.at].Command? && Decides(nodes, st.at, codes)
    requires StartedRight(nodes, before, q, st.at, st.piping, st.dirs, more)
    ensures NodesOf((before + [q])[first..]) == Executed(nodes, 0, codes)
    ensures Evaluate(nodes, 0, codes) == Returned(codes(st.at))
    ensures WellFormed(nodes) ==> forall k :: first <= k < |before| + 1 ==> RunsRight(nodes, before + [q], k, more)
  {
    ExecutedAfterCommand(nodes, before, q, st.at, first, codes);
    EvaluateAfterCommand(nodes, st.at, codes);
    if WellFormed(nodes) { PipingAfterCommand(nodes, before, openings, q, more, st, first); }
  }

  // The command does not decide: the run goes on.
  lemma TrackContinues(nodes: seq<Node>, before: seq<Proc>, openings: seq<File>, q: Proc, more: seq<File>, st: Running,
                       next: Running, first: nat, codes: Codes)
    requires OnTrack(nodes, before, openings, st, first, codes) && openings <= more
    requires st.at < |nodes| && nodes[st.at].Command? && !Decides(nodes, st.at, codes)
    requires StartedRight(nodes, before, q, st.at, st.piping, st.dirs, more)
    requires next.at == st.at + 2 && next.dirs == st.dirs
    requires IsOp(nodes[st.at + 1]) ==> (next.piping <==> nodes[st.at + 1] == Pipe)
    ensures OnTrack(nodes, before + [q], more, next, first, codes)
  {
    ExecutedAfterCommand(nodes, before, q, st.at, first, codes);
    EvaluateAfterCommand(nodes, st.at, codes);
    if WellFormed(nodes) {
      assert NodeOk(nodes, st.at + 1);
      PipingAfterCommand(nodes, before, openings, q, more, st, first);
    }
  }

  lemma StepsFail(env: EnvMatch, tokens: seq<string>, n: nat)
    requires n <= |tokens| && Steps(env, tokens[..n]) == None
    ensures Steps(env, tokens) == None
  {
    if n < |tokens| {
      assert tokens[..|tokens| - 1][..n] == tokens[..n];
      StepsFail(env, tokens[..|tokens| - 1], n);
    } else {
      assert tokens[..n] == tokens;
    }
  }

  class Pipeline {
    var currentCommand: Option<Node>
    var pipeline: seq<Node>

    constructor ()
      ensures currentCommand == None && pipeline == []
    {
      currentCommand, pipeline := None, [];
    }

    // ---------- parse ----------

    method CommitCommand() returns (ok: bool)
      modifies this
      ensures ok <==> old(currentCommand) != None
      ensures ok ==> currentCommand == None && pipeline == old(pipeline) + [old(currentCommand).value]
    {
      if currentCommand == None {
        return false;
      }
      pipeline := pipeline + [currentCommand.value];
      currentCommand := None;
      return true;
    }

    // _commit_command, append the operator, back to BEGIN
    method CommitWith(op: Node) returns (ok: bool)
      modifies this
      ensures ok <==> old(currentCommand) != None
      ensures ok ==> currentCommand == None && pipeline == old(pipeline) + [old(currentCommand).value, op]
    {
      ok := CommitCommand();
      if ok {
        pipeline := pipeline + [op];
      }
    }

    // The turn of the loop in a state that reads a command.
    method ParseInCommand(env: EnvMatch, state0: Mode, ghost vars: map<string, string>, token: string)
      returns (ok: bool, state: Mode)
      requires state0 != BEGIN && state0 != CHDIR && currentCommand.Some? && currentCommand.value.Command?
      modifies this
      ensures ok <==> Step(env, Parser(state0, old(currentCommand), old(pipeline), vars), token).Some?
      ensures ok ==> Step(env, Parser(state0, old(currentCommand), old(pipeline), vars), token)
                     == Some(Parser(state, currentCommand, pipeline, vars))
    {
      var c := currentCommand.value;
      ok, state := true, COMMAND;
      if state0 == COMMAND {
        if token == ">" {
          state := STDOUT;
        } else if token == "2>" {
          state := STDERR;
        } else if token == "2>&1" {
          ok := c.stderr == NoRedirect;
          currentCommand := Some(c.(stderr := ToStdout));
        } else if token == "<" {
          state := STDIN;
        } else if token == "|" {
          if c.stdout != NoRedirect {
            return false, state;
          }
          currentCommand := Some(c.(stdout := ToPipe));
          ok := CommitWith(Pipe);
          state := BEGIN;
        } else if token == "&&" {
          ok := CommitWith(And);
          state := BEGIN;
        } else if token == "||" {
          ok := CommitWith(Or);
          state := BEGIN;
        } else {
          currentCommand := Some(c.(argv := c.argv + [token]));
        }
      } else if state0 == STDOUT {
        ok := c.stdout == NoRedirect;
        currentCommand := Some(c.(stdout := ToFile(token)));
      } else if state0 == STDERR {
        ok := c.stderr == NoRedirect;
        currentCommand := Some(c.(stderr := ToFile(token)));
      } else {
        ok := c.stdin == None;
        currentCommand := Some(c.(stdin := Some(token)));
      }
    }

    method ParseToken(env: EnvMatch, state0: Mode, vars0: map<string, string>, token: string)
      returns (ok: bool, state: Mode, vars: map<string, string>)
      modifies this
      ensures ok <==> Step(env, Parser(state0, old(currentCommand), old(pipeline), vars0), token).Some?
      ensures ok ==> Step(env, Parser(state0, old(currentCommand), old(pipeline), vars0), token)
                     == Some(Parser(state, currentCommand, pipeline, vars))
    {
      ok, state, vars := true, state0, vars0;
      if state0 == BEGIN {
        var m := env(token);
        if m.Some? {
          vars := vars0[m.value.0 := m.value.1];
        } else if currentCommand != None {
          ok := false;
        } else if token == "cd" {
          currentCommand := Some(Chdir(None));
          ok := vars0 == map[];
          state := CHDIR;
        } else {
          currentCommand := Some(Command([token], None, NoRedirect, NoRedirect, vars0));
          vars := map[];
          state := COMMAND;
        }
      } else if state0 == CHDIR {
        if token == "&&" {
          ok := CommitWith(And);
          state := BEGIN;
        } else {
          ok := currentCommand.Some? && currentCommand.value.Chdir? && currentCommand.value.dir == None;
          currentCommand := Some(Chdir(Some(token)));
        }
      } else if currentCommand.Some? && currentCommand.value.Command? {
        ok, state := ParseInCommand(env, state0, vars0, token);
      } else {
        ok := false;
      }
    }

    // False is a failed assertion.
    method Parse(env: EnvMatch, tokens: seq<string>) returns (ok: bool)
      modifies this
      ensures ok <==> ShellSyntax.Parse(env, tokens).Some?
      ensures ok ==> pipeline == ShellSyntax.Parse(env, tokens).value && WellFormed(pipeline)
    {
      currentCommand, pipeline := None, [];
      var state, vars: map<string, string> := BEGIN, map[];
      for n := 0 to |tokens|
        invariant Steps(env, tokens[..n]) == Some(Parser(state, currentCommand, pipeline, vars))
      {
        assert tokens[..n + 1][..n] == tokens[..n];
        ok, state, vars := ParseToken(env, state, vars, tokens[n]);
        if !ok {
          StepsFail(env, tokens, n + 1);
          return;
        }
      }
      assert tokens[..|tokens|] == tokens;
      ok := CommitCommand();
      if ok { ParsedIsWellFormed(env, tokens); }
    }

    // ---------- run ----------

    // cmd.wait() for every process, then retvals[-1] as soon as one of them is not 0.
    method ExecPipedCommands(commands: seq<nat>, codes: Codes, world: World) returns (retval: int)
      requires forall i :: 0 <= i < |commands| ==> commands[i] < |world.procs|
      modifies world`waited
      ensures world.waited == old(world.waited) + commands
      ensures retval == if commands == [] then 0 else codes(world.procs[commands[|commands| - 1]].node)
    {
      var retvals: seq<int> := [];
      for i := 0 to |commands|
        invariant |retvals| == i && world.waited == old(world.waited) + commands[..i]
        invariant forall j :: 0 <= j < i ==> retvals[j] == codes(world.procs[commands[j]].node)
      {
        retvals := retvals + [codes(world.procs[commands[i]].node)];
        world.waited := world.waited + [commands[i]];
      }
      assert commands[..|commands|] == commands;
      retval := 0;
      for i := 0 to |retvals|
        invariant retval == 0 && forall j :: 0 <= j < i ==> retvals[j] == 0
      {
        if retvals[i] != 0 {
          return retvals[|retvals| - 1];
        }
      }
    }

    method CloseFiles(files: seq<Stream>, world: World)
      modifies world`closed
      ensures world.closed == old(world.closed) + Handles(files)
    {
      for i := 0 to |files|
        invariant world.closed == old(world.closed) + Handles(files[..i])
      {
        assert files[..i + 1] == files[..i] + [files[i]];
        HandlesAppend(files[..i], files[i]);
        if files[i].Handle? {
          world.closed := world.closed + [files[i].h];
        }
      }
      assert files[..|files|] == files;
    }

    // _open_out_file for a redirection to a file; other targets open nothing.
    method OpenOut(target: Redirect, files0: seq<Stream>, ghost h0: nat, world: World)
      returns (s: Stream, files: seq<Stream>)
      requires h0 <= |world.openings| && Handles(files0) == Range(h0, |world.openings|)
      modifies world`openings
      ensures old(world.openings) <= world.openings && Handles(files) == Range(h0, |world.openings|)
      ensures OutRight(target, s, world.openings)
    {
      files := files0;
      match target {
        case NoRedirect => s := Inherit;
        case ToPipe => s := NewPipe;
        case ToStdout => s := MergedWithStdout;
        case ToFile(name) =>
          if name == "NUL:" || name == "/dev/null" {
            s := DevNull;
          } else {
            s := world.Open(name, true);
          }
          HandlesAppend(files, s);
          files := files + [s];
      }
    }

    // stdin: the output of the last process of the pipeline, a file, or nothing. A process that does
    // not pipe has no output to read from.
    method OpenStdin(stdin: Option<string>, piping: bool, piped: seq<nat>, files0: seq<Stream>, ghost h0: nat,
                     world: World)
      returns (s: Stream, files: seq<Stream>)
      requires h0 <= |world.openings| && Handles(files0) == Range(h0, |world.openings|)
      requires piping ==> piped != [] && piped[|piped| - 1] < |world.procs|
      modifies world`openings
      ensures old(world.openings) <= world.openings && Handles(files) == Range(h0, |world.openings|)
      ensures piping && world.procs[piped[|piped| - 1]].stdout == NewPipe ==> s == OutputOf(piped[|piped| - 1])
      ensures !piping ==> InRight(stdin, s, world.openings)
    {
      files := files0;
      if piping {
        var p := piped[|piped| - 1];
        s := if world.procs[p].stdout == NewPipe then OutputOf(p) else Inherit;
      } else if stdin.Some? {
        s := world.Open(stdin.value, false);
        HandlesAppend(files, s);
        files := files + [s];
      } else {
        s := Inherit;
      }
    }

    // The pipeline being started: its processes and files are the latest ones.
    ghost predicate GroupOpen(world: World, piped: seq<nat>, files: seq<Stream>, h0: nat, p0: nat)
      reads world
    {
      && h0 <= |world.openings| && Handles(files) == Range(h0, |world.openings|)
      && p0 <= |world.procs| && piped == Range(p0, |world.procs|)
    }

    // The body of the loop up to Popen.
    method Start(at: nat, piping: bool, piped0: seq<nat>, files0: seq<Stream>, dirs: seq<string>,
                 ghost h0: nat, ghost p0: nat, world: World)
      returns (piped: seq<nat>, files: seq<Stream>)
      requires at < |pipeline| && pipeline[at].Command?
      requires GroupOpen(world, piped0, files0, h0, p0) && (piping ==> piped0 != [])
      modifies world`openings, world`procs
      ensures GroupOpen(world, piped, files, h0, p0) && piped == piped0 + [|old(world.procs)|]
      ensures old(world.openings) <= world.openings
      ensures |world.procs| == |old(world.procs)| + 1 && old(world.procs) <= world.procs
      ensures StartedRight(pipeline, old(world.procs), world.procs[|old(world.procs)|], at, piping, dirs,
                           world.openings)
    {
      var cmd := pipeline[at];
      var stdin, stdout, stderr;
      stdin, files := OpenStdin(cmd.stdin, piping, piped0, files0, h0, world);
      stdout, files := OpenOut(cmd.stdout, files, h0, world);
      stderr, files := OpenOut(cmd.stderr, files, h0, world);
      var env := if cmd.env != map[] then Updated(cmd.env) else Inherited;
      assert EnvRight(cmd.env, env);
      piped := piped0 + [|world.procs|];
      world.procs := world.procs + [Proc(at, stdin, stdout, stderr, dirs, env)];
    }

    // Wait for the pipeline, close its files.
    method Finish(piped: seq<nat>, files: seq<Stream>, codes: Codes, ghost h0: nat, ghost p0: nat, world: World)
      returns (retval: int)
      requires GroupOpen(world, piped, files, h0, p0) && piped != []
      modifies world`waited, world`closed
      ensures retval == codes(world.procs[|world.procs| - 1].node)
      ensures world.closed == old(world.closed) + Range(h0, |world.openings|)
      ensures world.waited == old(world.waited) + Range(p0, |world.procs|)
    {
      retval := ExecPipedCommands(piped, codes, world);
      CloseFiles(files, world);
    }

    // What has happened since run was called: the files of the finished pipelines are closed and their
    // processes waited for; h0 and p0 are where the pipeline being started begins.
    twostate predicate Tidy(world: World, h0: nat, p0: nat)
      reads world
    {
      && old(world.procs) <= world.procs && old(world.openings) <= world.openings
      && |old(world.openings)| <= h0 <= |world.openings| && |old(world.procs)| <= p0 <= |world.procs|
      && world.closed == old(world.closed) + Range(|old(world.openings)|, h0)
      && world.waited == old(world.waited) + Range(|old(world.procs)|, p0)
    }

    // One command: start it, and at the end of a pipeline wait, close and decide.
    method RunCommand(st: Running, codes: Codes, world: World, ghost h0: nat, ghost p0: nat)
      returns (result: Turn, ghost h1: nat, ghost p1: nat)
      requires st.at < |pipeline| && pipeline[st.at].Command?
      requires GroupOpen(world, st.piped, st.files, h0, p0) && (st.piping ==> st.piped != [])
      modifies world
      ensures |world.procs| == |old(world.procs)| + 1 && old(world.procs) <= world.procs
      ensures StartedRight(pipeline, old(world.procs), world.procs[|old(world.procs)|], st.at, st.piping,
                           st.dirs, world.openings)
      ensures old(world.openings) <= world.openings
      ensures h0 <= h1 <= |world.openings| && p0 <= p1 <= |world.procs|
      ensures world.closed == old(world.closed) + Range(h0, h1)
      ensures world.waited == old(world.waited) + Range(p0, p1)
      ensures result.Stop? ==> h1 == |world.openings| && p1 == |world.procs|
                               && result.code == codes(st.at) && Decides(pipeline, st.at, codes)
      ensures result.Next? ==>
                && !Decides(pipeline, st.at, codes)
                && result.st.at == st.at + 2 && result.st.dirs == st.dirs
                && GroupOpen(world, result.st.piped, result.st.files, h1, p1)
                && (result.st.piping ==> result.st.piped != [])
                && (IsOp(pipeline[st.at + 1]) ==> (result.st.piping <==> pipeline[st.at + 1] == Pipe))
    {
      var at := st.at;
      var piped, files := Start(at, st.piping, st.piped, st.files, st.dirs, h0, p0, world);
      h1, p1 := h0, p0;
      if at + 1 >= |pipeline| {
        var retval := Finish(piped, files, codes, h0, p0, world);
        return Stop(retval), |world.openings|, |world.procs|;
      }
      var next := pipeline[at + 1];
      if next == Or || next == And {
        var retval := Finish(piped, files, codes, h0, p0, world);
        h1, p1 := |world.openings|, |world.procs|;
        if (retval == 0) == (next == Or) {
          return Stop(retval), h1, p1;
        }
        result := Next(st.(at := at + 2, piping := false, piped := [], files := []));
      } else {
        result := Next(st.(at := at + 2, piping := next == Pipe || st.piping, piped := piped, files := files));
      }
    }

    // The outcome is that of Evaluate. A normal return leaves nothing behind: every file opened
    // (dev_null aside) has been closed once, every process started has been waited for once.
    method Run(codes: Codes, world: World) returns (outcome: Outcome)
      modifies world
      ensures outcome == Evaluate(pipeline, 0, codes)
      ensures old(world.procs) <= world.procs && old(world.openings) <= world.openings
      ensures outcome.Returned? ==> Tidy(world, |world.openings|, |world.procs|)
      ensures NodesOf(world.procs[|old(world.procs)|..]) == Executed(pipeline, 0, codes)
      ensures WellFormed(pipeline) ==>
                forall k :: |old(world.procs)| <= k < |world.procs| ==>
                  RunsRight(pipeline, world.procs, k, world.openings)
    {
      var st := Running(0, false, [], [], []);
      ghost var h0: nat, p0: nat := |world.openings|, |world.procs|;
      ghost var first := |world.procs|;
      while st.at < |pipeline|
        invariant Tidy(world, h0, p0) && first == |old(world.procs)|
        invariant GroupOpen(world, st.piped, st.files, h0, p0) && (st.piping ==> st.piped != [])
        invariant OnTrack(pipeline, world.procs, world.openings, st, first, codes)
        decreases |pipeline| - st.at
      {
        var node := pipeline[st.at];
        if node.Chdir? {
          if st.at + 1 >= |pipeline| { return Raised(IndexError); }
          if pipeline[st.at + 1] != And { return Raised(AssertionError); }
          if node.dir == None { return Raised(TypeError); }
          TrackAfterCd(pipeline, world.procs, world.openings, st, first, codes);
          st := AfterCd(st, node.dir.value);
        } else if node.Command? {
          ghost var procs, openings := world.procs, world.openings;
          ghost var h: nat, p: nat := h0, p0;
          var turn;
          turn, h0, p0 := RunCommand(st, codes, world, h, p);
          RangeConcat(old(world.closed), |old(world.openings)|, h, h0);
          RangeConcat(old(world.waited), first, p, p0);
          assert world.procs == procs + [world.procs[|procs|]];
          ghost var q := world.procs[|procs|];
          if turn.Stop? {
            TrackEnds(pipeline, procs, openings, q, world.openings, st, first, codes);
            return Returned(turn.code);
          }
          TrackContinues(pipeline, procs, openings, q, world.openings, st, turn.st, first, codes);
          st := turn.st;
        } else {
          return Raised(AssertionError);
        }
      }
      return ReturnedNone;
    }
  }
}
