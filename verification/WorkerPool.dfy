// The test worker pool of test.py: worker_thread.run (lines 972-1046), dispatching, sentinels,
// collecting, joining and the exit status in run_tests (lines 1389-1484, 1696-1752, 1863-1864,
// 1948-1951) and the interrupt flag (lines 585-589), as a transition system.

module WorkerPool {
  import opened Sequences

  // A job as dispatched; exitCode is the code its command ends with if it is run.
  datatype JobSpec = JobSpec(skip: bool, exitCode: int)

  datatype Config = Config(jobs: seq<JobSpec>, processors: nat)

  // Real jobs are numbered 0.. in dispatch order; the break sentinels come after them.
  datatype Job = Job(id: nat, isBreak: bool, isSkip: bool, returncode: int)

  // A worker between get and put; an exited worker remembers the sentinel it stopped at.
  datatype Worker =
    | Idle
    | Got(job: Job)
    | Running(job: Job)
    | Reporting(job: Job)
    | Exited(job: Job)

  datatype Verdict = Pass | Fail | Valgrind | Crash | Skip | TurnedBack

  datatype Tally = Tally(passed: nat, failed: nat, valgrind: nat, crashed: nat, skipped: nat)

  datatype State = State(
    put: nat,
    inQueue: seq<Job>,
    outQueue: seq<Job>,
    workers: seq<Worker>,
    threadExit: bool,
    collected: seq<Job>,
    tally: Tally,
    joined: nat)

  // One atomic step of the main thread, of a worker, or of the SIGINT handler.
  datatype Event =
    | Put
    | Get(w: nat)
    | Examine(w: nat)
    | Finish(w: nat)
    | Report(w: nat)
    | Collect
    | Join
    | CtrlC

  function Total(c: Config): nat {
    |c.jobs| + c.processors
  }

  // What the main thread puts into the input queue: the jobs, then one sentinel per worker.
  function Fresh(c: Config, id: nat): Job {
    if id < |c.jobs| then Job(id, false, c.jobs[id].skip, 0) else Job(id, true, false, 0)
  }

  function Init(c: Config): State {
    State(0, [], [], seq(c.processors, _ => Idle), false, [], Tally(0, 0, 0, 0, 0), 0)
  }

  function VerdictOf(j: Job): Verdict {
    if j.isBreak then TurnedBack
    else if j.isSkip then Skip
    else if j.returncode == 0 then Pass
    else if j.returncode == 1 then Fail
    else if j.returncode == 2 then Valgrind
    else Crash
  }

  function Counted(t: Tally, j: Job): Tally {
    match VerdictOf(j)
    case TurnedBack => t
    case Skip => t.(skipped := t.skipped + 1)
    case Pass => t.(passed := t.passed + 1)
    case Fail => t.(failed := t.failed + 1)
    case Valgrind => t.(valgrind := t.valgrind + 1)
    case Crash => t.(crashed := t.crashed + 1)
  }

  predicate Enabled(c: Config, s: State, e: Event) {
    match e
    case Put => s.put < Total(c)
    case Get(w) => w < |s.workers| && s.workers[w].Idle? && s.inQueue != []
    case Examine(w) => w < |s.workers| && s.workers[w].Got?
    case Finish(w) => w < |s.workers| && s.workers[w].Running?
    case Report(w) => w < |s.workers| && s.workers[w].Reporting?
    case Collect => s.put == Total(c) && |s.collected| < |c.jobs| && s.outQueue != []
    case Join => s.put == Total(c) && |s.collected| == |c.jobs| && s.joined < |s.workers| && s.workers[s.joined].Exited?
    case CtrlC => !s.threadExit
  }

  // What a worker does with the job it has just got.
  function Examined(threadExit: bool, j: Job): Worker {
    if j.isBreak then Exited(j)
    else if threadExit then Reporting(j.(isBreak := true))
    else if j.isSkip then Reporting(j)
    else Running(j)
  }

  function Next(c: Config, s: State, e: Event): State
    requires Enabled(c, s, e)
  {
    match e
    case Put => s.(put := s.put + 1, inQueue := s.inQueue + [Fresh(c, s.put)])
    case Get(w) => s.(inQueue := s.inQueue[1..], workers := s.workers[w := Got(s.inQueue[0])])
    case Examine(w) => s.(workers := s.workers[w := Examined(s.threadExit, s.workers[w].job)])
    case Finish(w) =>
      var j := s.workers[w].job;
      var code := if j.id < |c.jobs| then c.jobs[j.id].exitCode else 0;
      s.(workers := s.workers[w := Reporting(j.(returncode := code))])
    case Report(w) => s.(outQueue := s.outQueue + [s.workers[w].job], workers := s.workers[w := Idle])
    case Collect =>
      var j := s.outQueue[0];
      s.(outQueue := s.outQueue[1..], collected := s.collected + [j], tally := Counted(s.tally, j))
    case Join => s.(joined := s.joined + 1)
    case CtrlC => s.(threadExit := true)
  }

  predicate Done(c: Config, s: State) {
    s.put == Total(c) && |s.collected| == |c.jobs| && s.joined == |s.workers|
  }

  // run_tests' return value.
  function ExitStatus(c: Config, s: State): int {
    if s.tally.passed + s.tally.skipped == |c.jobs| then 0 else 1
  }

  // ---------- Runs: every interleaving ----------

  ghost predicate IsRun(c: Config, run: seq<Event>)
    decreases |run|, 1
  {
    run == [] || (IsRun(c, run[..|run| - 1]) && Enabled(c, After(c, run[..|run| - 1]), run[|run| - 1]))
  }

  ghost function After(c: Config, run: seq<Event>): State
    requires IsRun(c, run)
    decreases |run|, 2
  {
    if run == [] then Init(c) else Next(c, After(c, run[..|run| - 1]), run[|run| - 1])
  }

  // ---------- The invariant ----------

  // How often job id occurs in a list, and among the workers.
  function InList(js: seq<Job>, id: nat): nat {
    if js == [] then 0
    else InList(js[..|js| - 1], id) + if js[|js| - 1].id == id then 1 else 0
  }

  function Holds(w: Worker, id: nat): nat {
    if !w.Idle? && w.job.id == id then 1 else 0
  }

  function Held(ws: seq<Worker>, id: nat): nat {
    if ws == [] then 0 else Held(ws[..|ws| - 1], id) + Holds(ws[|ws| - 1], id)
  }

  function Busy(ws: seq<Worker>): nat {
    if ws == [] then 0 else Busy(ws[..|ws| - 1]) + if ws[|ws| - 1].Idle? then 0 else 1
  }

  function Taken(s: State): int {
    s.put - |s.inQueue|
  }

  // First in, first out: what is queued is what was put last, in order.
  ghost predicate QueueInOrder(c: Config, s: State) {
    && |s.inQueue| <= s.put <= Total(c)
    && forall i :: 0 <= i < |s.inQueue| ==> s.inQueue[i] == Fresh(c, Taken(s) + i)
  }

  // Every dispatched job is in exactly one place: in the input queue, held by one worker, in the
  // output queue, or collected; and what is nowhere queued has not been dispatched.
  function Copies(s: State, id: nat): nat {
    InList(s.inQueue, id) + Held(s.workers, id) + InList(s.outQueue, id) + InList(s.collected, id)
  }

  ghost predicate Conserved(s: State) {
    && (forall id: nat :: Copies(s, id) == if id < s.put then 1 else 0)
    && |s.inQueue| + Busy(s.workers) + |s.outQueue| + |s.collected| == s.put
  }

  // What may be reported for a job: turned back, skipped, or the code of its command.
  ghost predicate Genuine(c: Config, threadExit: bool, j: Job) {
    && j.id < |c.jobs|
    && j.isSkip == c.jobs[j.id].skip
    && (j.isBreak ==> threadExit)
    && (!j.isBreak && !j.isSkip ==> j.returncode == c.jobs[j.id].exitCode)
  }

  ghost predicate GoodWorker(c: Config, threadExit: bool, w: Worker) {
    match w
    case Idle => true
    case Got(j) => j == Fresh(c, j.id)
    case Running(j) => j.id < |c.jobs| && j == Fresh(c, j.id) && !j.isSkip
    case Reporting(j) => Genuine(c, threadExit, j)
    case Exited(j) => j.id >= |c.jobs|
  }

  // The main thread puts, then collects, then joins.
  ghost predicate InPhase(c: Config, s: State) {
    && |s.workers| == c.processors
    && s.joined <= c.processors
    && |s.collected| <= |c.jobs|
    && (s.collected != [] ==> s.put == Total(c))
    && (s.joined > 0 ==> |s.collected| == |c.jobs|)
    && (forall w :: 0 <= w < s.joined ==> s.workers[w].Exited?)
  }

  ghost predicate AllGenuine(c: Config, s: State) {
    && (forall w :: 0 <= w < |s.workers| ==> GoodWorker(c, s.threadExit, s.workers[w]))
    && (forall i :: 0 <= i < |s.outQueue| ==> Genuine(c, s.threadExit, s.outQueue[i]))
    && (forall i :: 0 <= i < |s.collected| ==> Genuine(c, s.threadExit, s.collected[i]))
  }

  function CountOf(js: seq<Job>, v: Verdict): nat {
    if js == [] then 0
    else CountOf(js[..|js| - 1], v) + if VerdictOf(js[|js| - 1]) == v then 1 else 0
  }

  predicate TallyMatches(t: Tally, js: seq<Job>) {
    && t.passed == CountOf(js, Pass)
    && t.failed == CountOf(js, Fail)
    && t.valgrind == CountOf(js, Valgrind)
    && t.crashed == CountOf(js, Crash)
    && t.skipped == CountOf(js, Skip)
  }

  ghost predicate Inv(c: Config, s: State) {
    && InPhase(c, s)
    && QueueInOrder(c, s)
    && Conserved(s)
    && AllGenuine(c, s)
    && TallyMatches(s.tally, s.collected)
  }

  // ---------- Bookkeeping ----------

  lemma InListAppend(js: seq<Job>, j: Job, id: nat)
    ensures InList(js + [j], id) == InList(js, id) + if j.id == id then 1 else 0
  {
    assert (js + [j])[..|js|] == js;
  }

  lemma {:induction false} InListTail(js: seq<Job>, id: nat)
    requires js != []
    ensures InList(js, id) == InList(js[1..], id) + if js[0].id == id then 1 else 0
  {
    if |js| > 1 {
      var n := |js| - 1;
      InListTail(js[..n], id);
      assert js[..n][1..] == js[1..][..n - 1];
    }
  }

  lemma {:induction false} InListIndex(js: seq<Job>, i: nat)
    requires i < |js|
    ensures InList(js, js[i].id) >= 1
    decreases |js|
  {
    if i < |js| - 1 { InListIndex(js[..|js| - 1], i); }
  }

  lemma {:induction false} HeldUpdate(ws: seq<Worker>, w: nat, x: Worker, id: nat)
    requires w < |ws|
    ensures Held(ws[w := x], id) + Holds(ws[w], id) == Held(ws, id) + Holds(x, id)
    ensures Busy(ws[w := x]) + (if ws[w].Idle? then 0 else 1) == Busy(ws) + if x.Idle? then 0 else 1
    decreases |ws|
  {
    var n := |ws| - 1;
    if w == n {
      assert ws[w := x][..n] == ws[..n];
    } else {
      HeldUpdate(ws[..n], w, x, id);
      assert ws[w := x][..n] == ws[..n][w := x];
    }
  }

  lemma {:induction false} HeldIndex(ws: seq<Worker>, w: nat)
    requires w < |ws| && !ws[w].Idle?
    ensures Held(ws, ws[w].job.id) >= 1
    decreases |ws|
  {
    if w < |ws| - 1 { HeldIndex(ws[..|ws| - 1], w); }
  }

  lemma {:induction false} BusyBound(ws: seq<Worker>)
    ensures Busy(ws) <= |ws|
    ensures Busy(ws) == |ws| ==> forall w :: 0 <= w < |ws| ==> !ws[w].Idle?
    ensures (forall w :: 0 <= w < |ws| ==> !ws[w].Idle?) ==> Busy(ws) == |ws|
  {
    if ws != [] {
      var n := |ws| - 1;
      BusyBound(ws[..n]);
      assert forall w :: 0 <= w < n ==> ws[..n][w] == ws[w];
    }
  }

  lemma {:induction false} AllIdle(n: nat, id: nat)
    ensures Held(seq(n, _ => Idle), id) == 0 && Busy(seq(n, _ => Idle)) == 0
  {
    if n > 0 {
      AllIdle(n - 1, id);
      assert seq(n, _ => Idle)[..n - 1] == seq(n - 1, _ => Idle);
    }
  }

  // ---------- Every step keeps the invariant ----------

  lemma InitInv(c: Config)
    ensures Inv(c, Init(c))
  {
    forall id: nat ensures Copies(Init(c), id) == 0 { AllIdle(c.processors, id); }
    AllIdle(c.processors, 0);
  }

  lemma StepCopies(c: Config, s: State, e: Event, id: nat)
    requires Inv(c, s) && Enabled(c, s, e)
    ensures Copies(Next(c, s, e), id) == Copies(s, id) + if e.Put? && id == s.put then 1 else 0
  {
    var s' := Next(c, s, e);
    match e
    case Put => InListAppend(s.inQueue, Fresh(c, s.put), id);
    case Get(w) => InListTail(s.inQueue, id); HeldUpdate(s.workers, w, s'.workers[w], id);
    case Examine(w) => HeldUpdate(s.workers, w, s'.workers[w], id);
    case Finish(w) => HeldUpdate(s.workers, w, s'.workers[w], id);
    case Report(w) => HeldUpdate(s.workers, w, Idle, id); InListAppend(s.outQueue, s.workers[w].job, id);
    case Collect => InListTail(s.outQueue, id); InListAppend(s.collected, s.outQueue[0], id);
    case Join =>
    case CtrlC =>
  }

  lemma StepConserved(c: Config, s: State, e: Event)
    requires Inv(c, s) && Enabled(c, s, e)
    ensures Conserved(Next(c, s, e))
  {
    var s' := Next(c, s, e);
    forall id: nat ensures Copies(s', id) == if id < s'.put then 1 else 0 {
      StepCopies(c, s, e, id);
    }
    if e.Get? || e.Examine? || e.Finish? || e.Report? {
      HeldUpdate(s.workers, e.w, s'.workers[e.w], 0);
    }
  }

  lemma StepGenuine(c: Config, s: State, e: Event)
    requires Inv(c, s) && Enabled(c, s, e)
    ensures AllGenuine(c, Next(c, s, e))
  {
    if e.Get? { assert s.inQueue[0] == Fresh(c, Taken(s)); }
  }

  lemma TallyAppend(t: Tally, js: seq<Job>, j: Job)
    requires TallyMatches(t, js)
    ensures TallyMatches(Counted(t, j), js + [j])
  {
    assert (js + [j])[..|js|] == js;
  }

  lemma StepTally(c: Config, s: State, e: Event)
    requires Enabled(c, s, e) && TallyMatches(s.tally, s.collected)
    ensures TallyMatches(Next(c, s, e).tally, Next(c, s, e).collected)
  {
    if e.Collect? { TallyAppend(s.tally, s.collected, s.outQueue[0]); }
  }

  lemma StepQueue(c: Config, s: State, e: Event)
    requires Inv(c, s) && Enabled(c, s, e)
    ensures QueueInOrder(c, Next(c, s, e))
  {
  }

  lemma StepPhase(c: Config, s: State, e: Event)
    requires Inv(c, s) && Enabled(c, s, e)
    ensures InPhase(c, Next(c, s, e))
  {
  }

  lemma StepInv(c: Config, s: State, e: Event)
    requires Inv(c, s) && Enabled(c, s, e)
    ensures Inv(c, Next(c, s, e))
  {
    StepPhase(c, s, e);
    StepQueue(c, s, e);
    StepConserved(c, s, e);
    StepGenuine(c, s, e);
    StepTally(c, s, e);
  }

  lemma {:induction false} RunInv(c: Config, run: seq<Event>)
    requires IsRun(c, run)
    ensures Inv(c, After(c, run))
  {
    if run == [] {
      InitInv(c);
    } else {
      RunInv(c, run[..|run| - 1]);
      StepInv(c, After(c, run[..|run| - 1]), run[|run| - 1]);
    }
  }

  // ---------- Sentinels come last ----------

  lemma {:induction false} InListWitness(js: seq<Job>, id: nat) returns (i: nat)
    requires InList(js, id) >= 1
    ensures i < |js| && js[i].id == id
  {
    i := |js| - 1;
    if js[i].id != id { i := InListWitness(js[..i], id); }
  }

  lemma QueuedIds(c: Config, s: State, id: nat)
    requires Inv(c, s) && Taken(s) <= id < s.put
    ensures InList(s.inQueue, id) == 1
    ensures Held(s.workers, id) == InList(s.outQueue, id) == InList(s.collected, id) == 0
  {
    assert s.inQueue[id - Taken(s)] == Fresh(c, id);
    InListIndex(s.inQueue, id - Taken(s));
    assert Copies(s, id) == 1;
  }

  // An id seen outside the input queue has been taken from it, together with all earlier ones.
  lemma SeenIsTaken(c: Config, s: State, id: nat)
    requires Inv(c, s)
    requires Held(s.workers, id) + InList(s.outQueue, id) + InList(s.collected, id) >= 1
    ensures id < Taken(s)
  {
    assert Copies(s, id) <= 1;
    if Taken(s) <= id < s.put { QueuedIds(c, s, id); }
  }

  // No worker consumes a break sentinel while a real job is still queued.
  lemma SentinelsComeLast(c: Config, run: seq<Event>, w: nat)
    requires IsRun(c, run) && w < |After(c, run).workers|
    requires !After(c, run).workers[w].Idle? && After(c, run).workers[w].job.id >= |c.jobs|
    ensures forall i :: 0 <= i < |After(c, run).inQueue| ==> After(c, run).inQueue[i].isBreak
  {
    var s := After(c, run);
    RunInv(c, run);
    HeldIndex(s.workers, w);
    SeenIsTaken(c, s, s.workers[w].job.id);
  }

  // Whatever the interleaving, each dispatched job is in exactly one place.
  lemma EveryJobInOnePlace(c: Config, run: seq<Event>, id: nat)
    requires IsRun(c, run)
    ensures Copies(After(c, run), id) == if id < After(c, run).put then 1 else 0
  {
    RunInv(c, run);
  }

  // ---------- Termination ----------

  function Steps(w: Worker): nat {
    match w
    case Idle => 0
    case Got(_) => 4
    case Running(_) => 3
    case Reporting(_) => 2
    case Exited(_) => 0
  }

  function WorkerSteps(ws: seq<Worker>): nat {
    if ws == [] then 0 else WorkerSteps(ws[..|ws| - 1]) + Steps(ws[|ws| - 1])
  }

  // An upper bound on the number of steps still to come.
  ghost function Measure(c: Config, s: State): nat
    requires Inv(c, s)
  {
    6 * (Total(c) - s.put) + 5 * |s.inQueue| + WorkerSteps(s.workers) + |s.outQueue|
    + (c.processors - s.joined) + if s.threadExit then 0 else 1
  }

  lemma {:induction false} WorkerStepsUpdate(ws: seq<Worker>, w: nat, x: Worker)
    requires w < |ws|
    ensures WorkerSteps(ws[w := x]) + Steps(ws[w]) == WorkerSteps(ws) + Steps(x)
    decreases |ws|
  {
    var n := |ws| - 1;
    if w == n {
      assert ws[w := x][..n] == ws[..n];
    } else {
      WorkerStepsUpdate(ws[..n], w, x);
      assert ws[w := x][..n] == ws[..n][w := x];
    }
  }

  lemma StepDecreases(c: Config, s: State, e: Event)
    requires Inv(c, s) && Enabled(c, s, e)
    ensures Inv(c, Next(c, s, e)) && Measure(c, Next(c, s, e)) < Measure(c, s)
  {
    StepInv(c, s, e);
    if e.Get? || e.Examine? || e.Finish? || e.Report? {
      WorkerStepsUpdate(s.workers, e.w, Next(c, s, e).workers[e.w]);
    }
  }

  lemma {:induction false} IdleSteps(n: nat)
    ensures WorkerSteps(seq(n, _ => Idle)) == 0
  {
    if n > 0 {
      IdleSteps(n - 1);
      assert seq(n, _ => Idle)[..n - 1] == seq(n - 1, _ => Idle);
    }
  }

  // No run is longer than this, whoever is scheduled and whenever Ctrl-C is pressed.
  lemma {:induction false} RunsAreBounded(c: Config, run: seq<Event>)
    requires IsRun(c, run)
    ensures Inv(c, After(c, run))
    ensures |run| + Measure(c, After(c, run)) <= 6 * |c.jobs| + 7 * c.processors + 1
  {
    if run == [] {
      InitInv(c);
      IdleSteps(c.processors);
    } else {
      RunsAreBounded(c, run[..|run| - 1]);
      StepDecreases(c, After(c, run[..|run| - 1]), run[|run| - 1]);
    }
  }

  // ---------- Deadlock freedom ----------

  function IdSeq(js: seq<Job>): seq<nat> {
    seq(|js|, i requires 0 <= i < |js| => js[i].id)
  }

  function Numbers(n: nat): set<nat> {
    if n == 0 then {} else Numbers(n - 1) + {n - 1}
  }

  lemma {:induction false} NumbersBelow(n: nat)
    ensures forall k: nat :: k in Numbers(n) <==> k < n
  {
    if n > 0 { NumbersBelow(n - 1); }
  }

  lemma {:induction false} NumbersSize(n: nat)
    ensures |Numbers(n)| == n
  {
    if n > 0 {
      NumbersSize(n - 1);
      NumbersBelow(n - 1);
      assert n - 1 !in Numbers(n - 1);
    }
  }

  lemma {:induction false} RepeatedTwice(js: seq<Job>, i: nat, j: nat)
    requires i < j < |js| && js[i].id == js[j].id
    ensures InList(js, js[i].id) >= 2
    decreases |js|
  {
    var n := |js| - 1;
    if j < n { RepeatedTwice(js[..n], i, j); } else { InListIndex(js[..n], i); }
  }

  lemma {:induction false} ElementsSize<T>(s: seq<T>)
    ensures |Elements(s)| <= |s|
  {
    if s == [] {
      assert Elements(s) == {};
    } else {
      ElementsSize(s[1..]);
      assert s == [s[0]] + s[1..];
      assert Elements(s) == {s[0]} + Elements(s[1..]);
    }
  }

  // The first n jobs once each, and nothing else.
  ghost predicate EachOnce(js: seq<Job>, n: nat) {
    forall id: nat :: InList(js, id) == if id < n then 1 else 0
  }

  // As many results as jobs, none twice, all of them jobs: every job is there.
  lemma AllCollected(c: Config, s: State)
    requires Inv(c, s) && |s.collected| == |c.jobs|
    ensures EachOnce(s.collected, |c.jobs|)
  {
    var ids := IdSeq(s.collected);
    forall i, j | 0 <= i < j < |ids| ensures ids[i] != ids[j] {
      assert Copies(s, ids[i]) <= 1;
      if ids[i] == ids[j] {
        RepeatedTwice(s.collected, i, j);
      }
    }
    DistinctCardinality(ids);
    NumbersSize(|c.jobs|);
    NumbersBelow(|c.jobs|);
    SubsetCardinality(Elements(ids), Numbers(|c.jobs|));
    forall id: nat ensures InList(s.collected, id) == if id < |c.jobs| then 1 else 0 {
      assert Copies(s, id) <= 1;
      if id < |c.jobs| {
        assert id in Numbers(|c.jobs|);
        var i :| 0 <= i < |ids| && ids[i] == id;
        InListIndex(s.collected, i);
      } else if InList(s.collected, id) >= 1 {
        var i := InListWitness(s.collected, id);
      }
    }
  }

  lemma {:induction false} StoppedHoldNoJob(ws: seq<Worker>, n: nat, id: nat)
    requires forall w :: 0 <= w < |ws| ==> ws[w].Exited? && ws[w].job.id >= n
    requires id < n
    ensures Held(ws, id) == 0
  {
    if ws != [] { StoppedHoldNoJob(ws[..|ws| - 1], n, id); }
  }

  // If every worker has stopped and nothing waits for collection, everything has been collected.
  lemma AllStoppedMeansCollected(c: Config, s: State)
    requires Inv(c, s) && s.put == Total(c) && c.processors >= 1 && s.outQueue == []
    requires forall w :: 0 <= w < |s.workers| ==> s.workers[w].Exited?
    ensures |s.collected| == |c.jobs|
  {
    HeldIndex(s.workers, 0);
    SeenIsTaken(c, s, s.workers[0].job.id);
    var ids := IdSeq(s.collected);
    NumbersBelow(|c.jobs|);
    forall id | id in Numbers(|c.jobs|) ensures id in Elements(ids) {
      assert Copies(s, id) == 1;
      if InList(s.inQueue, id) >= 1 {
        var i := InListWitness(s.inQueue, id);
      }
      StoppedHoldNoJob(s.workers, |c.jobs|, id);
      var i := InListWitness(s.collected, id);
      assert ids[i] == id;
    }
    NumbersSize(|c.jobs|);
    SubsetCardinality(Numbers(|c.jobs|), Elements(ids));
    ElementsSize(ids);
  }

  // What a worker that holds a job can do next.
  function OwnStep(w: nat, worker: Worker): Event {
    if worker.Got? then Examine(w) else if worker.Running? then Finish(w) else Report(w)
  }

  predicate CanStepAlone(worker: Worker) {
    worker.Got? || worker.Running? || worker.Reporting?
  }

  // An idle worker finds something in the queue once everything has been put.
  lemma IdleFindsWork(c: Config, s: State, w: nat)
    requires Inv(c, s) && s.put == Total(c) && w < |s.workers| && s.workers[w].Idle?
    requires s.outQueue == []
    ensures Enabled(c, s, Get(w))
  {
    BusyBound(s.workers);
  }

  lemma OutputEmpty(c: Config, s: State)
    requires Inv(c, s) && |s.collected| == |c.jobs|
    ensures s.outQueue == []
  {
    AllCollected(c, s);
    if s.outQueue != [] {
      assert Copies(s, s.outQueue[0].id) <= 1;
      InListIndex(s.outQueue, 0);
    }
  }

  // While the run is not over, some thread other than the interrupt handler can take a step.
  lemma Progress(c: Config, s: State) returns (e: Event)
    requires Inv(c, s) && !Done(c, s)
    requires c.processors >= 1 || c.jobs == []
    ensures e != CtrlC && Enabled(c, s, e)
  {
    if s.put < Total(c) {
      return Put;
    }
    if w: nat :| w < |s.workers| && CanStepAlone(s.workers[w]) {
      return OwnStep(w, s.workers[w]);
    }
    if |s.collected| < |c.jobs| {
      if s.outQueue != [] {
        return Collect;
      }
      if w: nat :| w < |s.workers| && s.workers[w].Idle? {
        IdleFindsWork(c, s, w);
        return Get(w);
      }
      AllStoppedMeansCollected(c, s);
      return Collect;
    }
    OutputEmpty(c, s);
    if s.workers[s.joined].Exited? {
      return Join;
    }
    IdleFindsWork(c, s, s.joined);
    return Get(s.joined);
  }

  // ---------- How every run ends ----------

  // Only a further Ctrl-C could still happen.
  ghost predicate Finished(c: Config, run: seq<Event>) {
    IsRun(c, run) && forall e :: Enabled(c, After(c, run), e) ==> e == CtrlC
  }

  // With a worker (or without jobs) every run that cannot go on has ended properly: each job was
  // collected once, both queues are empty, and every worker stopped at a sentinel of its own.
  lemma FinishedIsDone(c: Config, run: seq<Event>)
    requires Finished(c, run) && (c.processors >= 1 || c.jobs == [])
    ensures var s := After(c, run);
            && Done(c, s)
            && s.inQueue == [] && s.outQueue == []
            && (forall w :: 0 <= w < |s.workers| ==> s.workers[w].Exited?)
            && EachOnce(s.collected, |c.jobs|)
            && (forall id: nat :: |c.jobs| <= id < Total(c) ==> Held(s.workers, id) == 1)
  {
    var s := After(c, run);
    RunInv(c, run);
    if !Done(c, s) {
      var e := Progress(c, s);
      assert false;
    }
    AllCollected(c, s);
    BusyBound(s.workers);
    forall id: nat | |c.jobs| <= id < Total(c) ensures Held(s.workers, id) == 1 {
      assert Copies(s, id) == 1;
      assert InList(s.collected, id) == 0;
    }
  }

  // Without workers a run with jobs never ends properly: the collector waits for ever.
  lemma {:induction false} NoWorkersNeverDone(c: Config, run: seq<Event>)
    requires IsRun(c, run) && c.processors == 0 && c.jobs != []
    ensures After(c, run).collected == [] && After(c, run).outQueue == []
    ensures !Done(c, After(c, run))
  {
    if run != [] {
      NoWorkersNeverDone(c, run[..|run| - 1]);
      RunInv(c, run[..|run| - 1]);
    }
  }

  // ---------- What the tally and the exit status mean ----------

  lemma {:induction false} CountsAddUp(js: seq<Job>)
    ensures CountOf(js, Pass) + CountOf(js, Fail) + CountOf(js, Valgrind) + CountOf(js, Crash)
            + CountOf(js, Skip) + CountOf(js, TurnedBack) == |js|
  {
    if js != [] { CountsAddUp(js[..|js| - 1]); }
  }

  predicate Good(j: Job) {
    VerdictOf(j) == Pass || VerdictOf(j) == Skip
  }

  lemma {:induction false} AllGood(js: seq<Job>)
    ensures CountOf(js, Pass) + CountOf(js, Skip) <= |js|
    ensures CountOf(js, Pass) + CountOf(js, Skip) == |js| <==> forall i :: 0 <= i < |js| ==> Good(js[i])
  {
    if js != [] {
      var n := |js| - 1;
      AllGood(js[..n]);
      assert forall i :: 0 <= i < n ==> js[..n][i] == js[i];
    }
  }

  lemma TallyIsComplete(c: Config, run: seq<Event>)
    requires Finished(c, run) && (c.processors >= 1 || c.jobs == [])
    ensures var s := After(c, run);
            s.tally.passed + s.tally.failed + s.tally.valgrind + s.tally.crashed + s.tally.skipped
            + CountOf(s.collected, TurnedBack) == |c.jobs|
  {
    RunInv(c, run);
    FinishedIsDone(c, run);
    CountsAddUp(After(c, run).collected);
  }

  ghost predicate NoneTurnedBack(s: State) {
    forall i :: 0 <= i < |s.collected| ==> !s.collected[i].isBreak
  }

  ghost predicate AllSucceed(c: Config) {
    forall id :: 0 <= id < |c.jobs| ==> c.jobs[id].skip || c.jobs[id].exitCode == 0
  }

  // The run returns 0 iff every dispatched job was skipped or exited 0 and none was turned back.
  lemma ExitStatusMeaning(c: Config, run: seq<Event>)
    requires Finished(c, run) && (c.processors >= 1 || c.jobs == [])
    ensures ExitStatus(c, After(c, run)) == 0 <==> NoneTurnedBack(After(c, run)) && AllSucceed(c)
  {
    var s := After(c, run);
    RunInv(c, run);
    FinishedIsDone(c, run);
    AllGood(s.collected);
    if NoneTurnedBack(s) {
      forall i | 0 <= i < |s.collected|
        ensures Good(s.collected[i]) <==>
                  c.jobs[s.collected[i].id].skip || c.jobs[s.collected[i].id].exitCode == 0
      {
        assert Genuine(c, s.threadExit, s.collected[i]);
      }
      if forall i :: 0 <= i < |s.collected| ==> Good(s.collected[i]) {
        forall id | 0 <= id < |c.jobs| ensures c.jobs[id].skip || c.jobs[id].exitCode == 0 {
          assert InList(s.collected, id) == 1;
          var i := InListWitness(s.collected, id);
          assert Good(s.collected[i]);
        }
      }
    } else {
      var i :| 0 <= i < |s.collected| && s.collected[i].isBreak;
      assert !Good(s.collected[i]);
    }
  }

  lemma FlagStep(c: Config, s: State, e: Event)
    requires Enabled(c, s, e)
    ensures Next(c, s, e).threadExit <==> s.threadExit || e == CtrlC
  {
  }

  lemma {:induction false} FlagMeansCtrlC(c: Config, run: seq<Event>)
    requires IsRun(c, run)
    ensures After(c, run).threadExit <==> CtrlC in run
  {
    if run != [] {
      var n := |run| - 1;
      FlagMeansCtrlC(c, run[..n]);
      FlagStep(c, After(c, run[..n]), run[n]);
      assert run == run[..n] + [run[n]];
    }
  }

  // Ctrl-C can be pressed at any time, once.
  lemma CtrlCAnytime(c: Config, run: seq<Event>)
    requires IsRun(c, run)
    ensures IsRun(c, run + [CtrlC]) <==> CtrlC !in run
  {
    FlagMeansCtrlC(c, run);
    assert (run + [CtrlC])[..|run|] == run;
  }

  // Left alone, the pool's exit status depends on the jobs only, not on the schedule.
  lemma UninterruptedExitStatus(c: Config, run: seq<Event>)
    requires Finished(c, run) && CtrlC !in run && (c.processors >= 1 || c.jobs == [])
    ensures ExitStatus(c, After(c, run)) == 0 <==> AllSucceed(c)
  {
    RunInv(c, run);
    FlagMeansCtrlC(c, run);
    ExitStatusMeaning(c, run);
  }

  // ---------- What Ctrl-C guarantees ----------

  // The job has not been dispatched, is queued, or has been fetched but not been looked at.
  ghost predicate Waiting(s: State, id: nat) {
    || id >= s.put
    || (exists i :: 0 <= i < |s.inQueue| && s.inQueue[i].id == id)
    || (exists w :: 0 <= w < |s.workers| && s.workers[w].Got? && s.workers[w].job.id == id)
  }

  predicate TurnedBackAt(w: Worker, id: nat) {
    match w
    case Running(j) => j.id != id
    case Reporting(j) => j.id == id ==> j.isBreak
    case _ => true
  }

  ghost predicate ReportedBack(js: seq<Job>, id: nat) {
    forall i :: 0 <= i < |js| && js[i].id == id ==> js[i].isBreak
  }

  // The job is not being run, and every report about it says that it was turned back.
  ghost predicate NeverRun(s: State, id: nat) {
    && (forall w :: 0 <= w < |s.workers| ==> TurnedBackAt(s.workers[w], id))
    && ReportedBack(s.outQueue, id)
    && ReportedBack(s.collected, id)
  }

  lemma {:induction false} NotInList(js: seq<Job>, id: nat)
    requires InList(js, id) == 0
    ensures forall i :: 0 <= i < |js| ==> js[i].id != id
  {
    forall i | 0 <= i < |js| ensures js[i].id != id { InListIndex(js, i); }
  }

  lemma {:induction false} OneHolder(ws: seq<Worker>, v: nat, w: nat)
    requires v < w < |ws| && !ws[v].Idle? && !ws[w].Idle? && ws[v].job.id == ws[w].job.id
    ensures Held(ws, ws[w].job.id) >= 2
    decreases |ws|
  {
    var n := |ws| - 1;
    if w < n { OneHolder(ws[..n], v, w); } else { HeldIndex(ws[..n], v); }
  }

  predicate HeldElsewhere(ws: seq<Worker>, w: nat, id: nat) {
    exists v: nat :: v < |ws| && v != w && !ws[v].Idle? && ws[v].job.id == id
  }

  // A job in a worker's hands is nowhere else.
  lemma HeldOnce(c: Config, s: State, w: nat, id: nat)
    requires Inv(c, s) && w < |s.workers| && !s.workers[w].Idle? && s.workers[w].job.id == id
    ensures id < s.put && !HeldElsewhere(s.workers, w, id)
    ensures InList(s.inQueue, id) == InList(s.outQueue, id) == InList(s.collected, id) == 0
  {
    assert Copies(s, id) <= 1;
    HeldIndex(s.workers, w);
    if HeldElsewhere(s.workers, w, id) {
      var v: nat :| v < |s.workers| && v != w && !s.workers[v].Idle? && s.workers[v].job.id == id;
      if v < w { OneHolder(s.workers, v, w); } else { OneHolder(s.workers, w, v); }
    }
  }

  // A waiting job is nowhere else.
  lemma WaitingIsNotRun(c: Config, s: State, id: nat)
    requires Inv(c, s) && Waiting(s, id)
    ensures NeverRun(s, id)
  {
    assert Copies(s, id) <= 1;
    if id >= s.put || exists i :: 0 <= i < |s.inQueue| && s.inQueue[i].id == id {
      if id < s.put {
        var i :| 0 <= i < |s.inQueue| && s.inQueue[i].id == id;
        InListIndex(s.inQueue, i);
      }
      NotInList(s.outQueue, id);
      NotInList(s.collected, id);
      forall w | 0 <= w < |s.workers| ensures TurnedBackAt(s.workers[w], id) {
        if !s.workers[w].Idle? { HeldIndex(s.workers, w); }
      }
    } else {
      var v :| 0 <= v < |s.workers| && s.workers[v].Got? && s.workers[v].job.id == id;
      HeldOnce(c, s, v, id);
      NotInList(s.outQueue, id);
      NotInList(s.collected, id);
    }
  }

  lemma NeverRunStep(c: Config, s: State, e: Event, id: nat)
    requires Enabled(c, s, e) && s.threadExit && NeverRun(s, id)
    ensures Next(c, s, e).threadExit && NeverRun(Next(c, s, e), id)
  {
  }

  // The state after a part of a run.
  ghost function AfterPart(c: Config, run: seq<Event>, n: nat): State
    requires IsRun(c, run) && n <= |run|
    decreases |run|
  {
    if n == |run| then After(c, run) else AfterPart(c, run[..|run| - 1], n)
  }

  // A job that waits after Ctrl-C is not run by any continuation of the run.
  lemma {:induction false} NeverRunAfterCtrlC(c: Config, run: seq<Event>, n: nat, id: nat)
    requires IsRun(c, run) && n <= |run|
    requires AfterPart(c, run, n).threadExit && Waiting(AfterPart(c, run, n), id)
    ensures After(c, run).threadExit && NeverRun(After(c, run), id)
    decreases |run|
  {
    if n == |run| {
      RunInv(c, run);
      WaitingIsNotRun(c, After(c, run), id);
    } else {
      var m := |run| - 1;
      NeverRunAfterCtrlC(c, run[..m], n, id);
      NeverRunStep(c, After(c, run[..m]), run[m], id);
    }
  }

  // ... and in the end it has been collected as turned back, so the run returns 1.
  lemma WaitingIsTurnedBack(c: Config, run: seq<Event>, n: nat, id: nat)
    requires Finished(c, run) && (c.processors >= 1 || c.jobs == []) && n <= |run|
    requires AfterPart(c, run, n).threadExit && Waiting(AfterPart(c, run, n), id) && id < |c.jobs|
    ensures exists i :: 0 <= i < |After(c, run).collected| && After(c, run).collected[i].id == id
                        && After(c, run).collected[i].isBreak
    ensures ExitStatus(c, After(c, run)) == 1
  {
    NeverRunAfterCtrlC(c, run, n, id);
    FinishedIsDone(c, run);
    var i := InListWitness(After(c, run).collected, id);
    assert After(c, run).collected[i].isBreak;
    ExitStatusMeaning(c, run);
  }

  ghost predicate IsRunning(s: State, id: nat) {
    exists w :: 0 <= w < |s.workers| && s.workers[w].Running? && s.workers[w].job.id == id
  }

  // No job is started after Ctrl-C: what runs later was running then.
  lemma {:induction false} NoneStartedAfterCtrlC(c: Config, run: seq<Event>, n: nat, id: nat)
    requires IsRun(c, run) && n <= |run| && AfterPart(c, run, n).threadExit
    ensures After(c, run).threadExit
    ensures IsRunning(After(c, run), id) ==> IsRunning(AfterPart(c, run, n), id)
    decreases |run|
  {
    if n < |run| {
      var m := |run| - 1;
      var s := After(c, run[..m]);
      NoneStartedAfterCtrlC(c, run[..m], n, id);
      if IsRunning(After(c, run), id) {
        var w :| 0 <= w < |After(c, run).workers| && After(c, run).workers[w].Running?
                 && After(c, run).workers[w].job.id == id;
        assert s.workers[w].Running? && s.workers[w].job.id == id;
      }
    }
  }

  // ---------- What becomes of every job, Ctrl-C or not ----------

  predicate KeptAt(w: Worker, id: nat) {
    match w
    case Got(j) => j.id != id
    case Running(j) => j.id == id ==> !j.isBreak
    case Reporting(j) => j.id == id ==> !j.isBreak
    case _ => true
  }

  ghost predicate ReportedKept(js: seq<Job>, id: nat) {
    forall i :: 0 <= i < |js| && js[i].id == id ==> !js[i].isBreak
  }

  // A worker has looked at the job, and no report about it says that it was turned back.
  ghost predicate Underway(s: State, id: nat) {
    && !Waiting(s, id)
    && (forall w :: 0 <= w < |s.workers| ==> KeptAt(s.workers[w], id))
    && ReportedKept(s.outQueue, id)
    && ReportedKept(s.collected, id)
  }

  lemma UnderwayStep(c: Config, s: State, e: Event, id: nat)
    requires Enabled(c, s, e) && Underway(s, id)
    ensures Underway(Next(c, s, e), id)
  {
  }

  lemma HeldIsUnderway(c: Config, s: State, w: nat, id: nat)
    requires Inv(c, s) && w < |s.workers| && !s.workers[w].Idle? && s.workers[w].job.id == id
    requires !s.workers[w].Got? && KeptAt(s.workers[w], id)
    ensures Underway(s, id)
  {
    HeldOnce(c, s, w, id);
    NotInList(s.inQueue, id);
    NotInList(s.outQueue, id);
    NotInList(s.collected, id);
    forall v | 0 <= v < |s.workers| ensures KeptAt(s.workers[v], id) { }
  }

  // Before Ctrl-C a waiting job goes on waiting until it is under way.
  lemma WaitingStep(c: Config, s: State, e: Event, id: nat)
    requires Inv(c, s) && Enabled(c, s, e) && !s.threadExit && Waiting(s, id) && id < |c.jobs|
    ensures Waiting(Next(c, s, e), id) || Underway(Next(c, s, e), id)
  {
    var s' := Next(c, s, e);
    StepInv(c, s, e);
    if e.Examine? && s.workers[e.w].job.id == id {
      HeldIsUnderway(c, s', e.w, id);
    } else if id >= s.put {
      if e.Put? && id == s.put { assert s'.inQueue[|s.inQueue|].id == id; }
    } else if i :| 0 <= i < |s.inQueue| && s.inQueue[i].id == id {
      if e.Get? && i == 0 {
        assert s'.workers[e.w].Got?;
      } else {
        assert s'.inQueue[if e.Get? then i - 1 else i].id == id;
      }
    } else {
      var w :| 0 <= w < |s.workers| && s.workers[w].Got? && s.workers[w].job.id == id;
      assert s'.workers[w].Got?;
    }
  }

  // The job was still to be dispatched, queued or merely fetched when Ctrl-C was pressed.
  ghost predicate WaitingAtCtrlC(c: Config, run: seq<Event>, id: nat)
    requires IsRun(c, run)
  {
    exists n: nat :: n < |run| && run[n] == CtrlC && Waiting(AfterPart(c, run, n), id)
  }

  lemma WaitingAtLast(c: Config, run: seq<Event>, id: nat)
    requires IsRun(c, run) && run != []
    ensures var m := |run| - 1;
            WaitingAtCtrlC(c, run, id) <==>
              WaitingAtCtrlC(c, run[..m], id) || (run[m] == CtrlC && Waiting(After(c, run[..m]), id))
  {
    var m := |run| - 1;
    assert AfterPart(c, run, m) == After(c, run[..m]);
    forall n: nat | n < m ensures run[..m][n] == run[n] && AfterPart(c, run[..m], n) == AfterPart(c, run, n) { }
    if WaitingAtCtrlC(c, run[..m], id) {
      var n: nat :| n < m && run[..m][n] == CtrlC && Waiting(AfterPart(c, run[..m], n), id);
      assert run[n] == CtrlC && Waiting(AfterPart(c, run, n), id);
    }
    if WaitingAtCtrlC(c, run, id) {
      var n: nat :| n < |run| && run[n] == CtrlC && Waiting(AfterPart(c, run, n), id);
      if n < m { assert run[..m][n] == CtrlC && Waiting(AfterPart(c, run[..m], n), id); }
    }
  }

  lemma {:induction false} FateSoFar(c: Config, run: seq<Event>, id: nat)
    requires IsRun(c, run) && id < |c.jobs|
    ensures var s := After(c, run);
            if WaitingAtCtrlC(c, run, id) then s.threadExit && NeverRun(s, id)
            else Underway(s, id) || (!s.threadExit && Waiting(s, id))
  {
    if run != [] {
      var m := |run| - 1;
      var s, e := After(c, run[..m]), run[m];
      RunInv(c, run[..m]);
      FateSoFar(c, run[..m], id);
      WaitingAtLast(c, run, id);
      if WaitingAtCtrlC(c, run[..m], id) {
        NeverRunStep(c, s, e, id);
      } else if Underway(s, id) {
        UnderwayStep(c, s, e, id);
      } else if e == CtrlC {
        WaitingIsNotRun(c, s, id);
      } else {
        WaitingStep(c, s, e, id);
      }
    }
  }

  // In the end every job has been collected: as turned back exactly if it was waiting at Ctrl-C, and
  // otherwise with its own skip flag and exit code.
  lemma JobOutcome(c: Config, run: seq<Event>, id: nat) returns (i: nat)
    requires Finished(c, run) && (c.processors >= 1 || c.jobs == []) && id < |c.jobs|
    ensures i < |After(c, run).collected| && After(c, run).collected[i].id == id
    ensures var j := After(c, run).collected[i];
            && (j.isBreak <==> WaitingAtCtrlC(c, run, id))
            && j.isSkip == c.jobs[id].skip
            && (!j.isBreak && !j.isSkip ==> j.returncode == c.jobs[id].exitCode)
  {
    RunInv(c, run);
    FinishedIsDone(c, run);
    FateSoFar(c, run, id);
    i := InListWitness(After(c, run).collected, id);
    assert Genuine(c, After(c, run).threadExit, After(c, run).collected[i]);
  }

  lemma {:induction false} UnderwayStays(c: Config, run: seq<Event>, n: nat, id: nat)
    requires IsRun(c, run) && n <= |run| && Underway(AfterPart(c, run, n), id)
    ensures Underway(After(c, run), id)
    decreases |run|
  {
    if n < |run| {
      var m := |run| - 1;
      UnderwayStays(c, run[..m], n, id);
      UnderwayStep(c, After(c, run[..m]), run[m], id);
    }
  }

  lemma {:induction false} PartInv(c: Config, run: seq<Event>, n: nat)
    requires IsRun(c, run) && n <= |run|
    ensures Inv(c, AfterPart(c, run, n))
    decreases |run|
  {
    if n == |run| { RunInv(c, run); } else { PartInv(c, run[..|run| - 1], n); }
  }

  // A job that is running at some moment is collected with the code of its command, even if Ctrl-C is
  // pressed meanwhile.
  lemma RunningIsReported(c: Config, run: seq<Event>, n: nat, id: nat) returns (i: nat)
    requires Finished(c, run) && (c.processors >= 1 || c.jobs == []) && n <= |run|
    requires IsRunning(AfterPart(c, run, n), id)
    ensures id < |c.jobs| && i < |After(c, run).collected|
    ensures var j := After(c, run).collected[i];
            j.id == id && !j.isBreak && !j.isSkip && j.returncode == c.jobs[id].exitCode
  {
    var s := AfterPart(c, run, n);
    PartInv(c, run, n);
    var w :| 0 <= w < |s.workers| && s.workers[w].Running? && s.workers[w].job.id == id;
    assert GoodWorker(c, s.threadExit, s.workers[w]);
    HeldIsUnderway(c, s, w, id);
    UnderwayStays(c, run, n, id);
    i := JobOutcome(c, run, id);
    assert !After(c, run).collected[i].isBreak;
  }

  // ---------- The whole tally ----------

  // What a command's exit code says: 0 passed, 1 failed, 2 valgrind errors, anything else crashed.
  function OwnVerdict(spec: JobSpec): Verdict {
    if spec.skip then Skip
    else
      match spec.exitCode
      case 0 => Pass
      case 1 => Fail
      case 2 => Valgrind
      case _ => Crash
  }

  function JobsWith(jobs: seq<JobSpec>, v: Verdict): nat {
    if jobs == [] then 0
    else JobsWith(jobs[..|jobs| - 1], v) + if OwnVerdict(jobs[|jobs| - 1]) == v then 1 else 0
  }

  // The reports about the first n jobs that have the verdict v.
  function CountBelow(js: seq<Job>, v: Verdict, n: nat): nat {
    if js == [] then 0
    else
      var j := js[|js| - 1];
      CountBelow(js[..|js| - 1], v, n) + if j.id < n && VerdictOf(j) == v then 1 else 0
  }

  lemma {:induction false} CountBelowStep(js: seq<Job>, v: Verdict, n: nat, own: Verdict)
    requires forall i :: 0 <= i < |js| && js[i].id == n ==> VerdictOf(js[i]) == own
    ensures CountBelow(js, v, n + 1) == CountBelow(js, v, n) + if own == v then InList(js, n) else 0
  {
    if js != [] { CountBelowStep(js[..|js| - 1], v, n, own); }
  }

  lemma {:induction false} CountBelowEnds(js: seq<Job>, v: Verdict, n: nat)
    requires forall i :: 0 <= i < |js| ==> js[i].id < n
    ensures CountBelow(js, v, 0) == 0 && CountBelow(js, v, n) == CountOf(js, v)
  {
    if js != [] { CountBelowEnds(js[..|js| - 1], v, n); }
  }

  // Every job reported once, each with its own verdict.
  ghost predicate OwnReports(c: Config, js: seq<Job>) {
    && (forall i :: 0 <= i < |js| ==> js[i].id < |c.jobs| && VerdictOf(js[i]) == OwnVerdict(c.jobs[js[i].id]))
    && (forall id: nat :: id < |c.jobs| ==> InList(js, id) == 1)
  }

  lemma {:induction false} ReportsMatchJobs(c: Config, js: seq<Job>, v: Verdict, n: nat)
    requires OwnReports(c, js) && n <= |c.jobs|
    ensures CountBelow(js, v, n) == JobsWith(c.jobs[..n], v)
  {
    if n == 0 {
      CountBelowEnds(js, v, |c.jobs|);
    } else {
      ReportsMatchJobs(c, js, v, n - 1);
      CountBelowStep(js, v, n - 1, OwnVerdict(c.jobs[n - 1]));
      assert c.jobs[..n][..n - 1] == c.jobs[..n - 1];
    }
  }

  // Left alone, every schedule ends with the same tally: the jobs counted by skip flag and exit code.
  lemma UninterruptedTally(c: Config, run: seq<Event>)
    requires Finished(c, run) && CtrlC !in run && (c.processors >= 1 || c.jobs == [])
    ensures After(c, run).tally == Tally(JobsWith(c.jobs, Pass), JobsWith(c.jobs, Fail), JobsWith(c.jobs, Valgrind),
                                         JobsWith(c.jobs, Crash), JobsWith(c.jobs, Skip))
  {
    var js := After(c, run).collected;
    RunInv(c, run);
    FlagMeansCtrlC(c, run);
    FinishedIsDone(c, run);
    assert forall i :: 0 <= i < |js| ==> Genuine(c, false, js[i]);
    assert OwnReports(c, js);
    forall v ensures CountOf(js, v) == JobsWith(c.jobs, v) {
      ReportsMatchJobs(c, js, v, |c.jobs|);
      CountBelowEnds(js, v, |c.jobs|);
      assert c.jobs[..|c.jobs|] == c.jobs;
    }
  }

  // The jobs that ended with a verdict of their own.
  ghost function Kept(c: Config, run: seq<Event>, v: Verdict): set<nat>
    requires IsRun(c, run)
  {
    set id: nat | id < |c.jobs| && !WaitingAtCtrlC(c, run, id) && OwnVerdict(c.jobs[id]) == v
  }

  ghost function IdsWith(js: seq<Job>, v: Verdict): set<nat> {
    set i | 0 <= i < |js| && VerdictOf(js[i]) == v :: js[i].id
  }

  lemma IdsAppend(js: seq<Job>, j: Job, v: Verdict)
    ensures IdsWith(js + [j], v) == IdsWith(js, v) + if VerdictOf(j) == v then {j.id} else {}
  {
    var more := js + [j];
    assert more[|js|] == j;
    forall id: nat | id in IdsWith(js, v) ensures id in IdsWith(more, v) {
      var i :| 0 <= i < |js| && VerdictOf(js[i]) == v && js[i].id == id;
      assert more[i] == js[i];
    }
  }

  lemma IdsAreListed(js: seq<Job>, v: Verdict, id: nat)
    requires id in IdsWith(js, v)
    ensures InList(js, id) >= 1
  {
    var i :| 0 <= i < |js| && VerdictOf(js[i]) == v && js[i].id == id;
    InListIndex(js, i);
  }

  lemma {:induction false} IdsCounted(js: seq<Job>, v: Verdict)
    requires forall id: nat :: InList(js, id) <= 1
    ensures |IdsWith(js, v)| == CountOf(js, v)
  {
    if js != [] {
      var n := |js| - 1;
      forall id: nat ensures InList(js[..n], id) <= 1 { assert InList(js, id) <= 1; }
      assert InList(js, js[n].id) <= 1;
      IdsCounted(js[..n], v);
      assert js == js[..n] + [js[n]];
      IdsAppend(js[..n], js[n], v);
      if js[n].id in IdsWith(js[..n], v) { IdsAreListed(js[..n], v, js[n].id); }
    }
  }

  lemma VerdictOfReport(c: Config, run: seq<Event>, i: nat)
    requires Finished(c, run) && (c.processors >= 1 || c.jobs == []) && i < |After(c, run).collected|
    ensures var j := After(c, run).collected[i];
            && j.id < |c.jobs|
            && VerdictOf(j) == if WaitingAtCtrlC(c, run, j.id) then TurnedBack else OwnVerdict(c.jobs[j.id])
  {
    var js := After(c, run).collected;
    RunInv(c, run);
    FinishedIsDone(c, run);
    assert Genuine(c, After(c, run).threadExit, js[i]);
    assert InList(js, js[i].id) <= 1;
    var k := JobOutcome(c, run, js[i].id);
    if k < i { RepeatedTwice(js, k, i); } else if i < k { RepeatedTwice(js, i, k); }
  }

  lemma KeptAreCollected(c: Config, run: seq<Event>, v: Verdict)
    requires Finished(c, run) && (c.processors >= 1 || c.jobs == []) && v != TurnedBack
    ensures IdsWith(After(c, run).collected, v) == Kept(c, run, v)
  {
    var js := After(c, run).collected;
    forall id: nat | id in Kept(c, run, v) ensures id in IdsWith(js, v) {
      var i := JobOutcome(c, run, id);
      VerdictOfReport(c, run, i);
    }
    forall id: nat | id in IdsWith(js, v) ensures id in Kept(c, run, v) {
      var i :| 0 <= i < |js| && VerdictOf(js[i]) == v && js[i].id == id;
      VerdictOfReport(c, run, i);
    }
  }

  // Every schedule, interrupted or not: each job that was not waiting at Ctrl-C is counted once, by its
  // own skip flag and exit code, and no other job is counted.
  lemma TallyOfRun(c: Config, run: seq<Event>)
    requires Finished(c, run) && (c.processors >= 1 || c.jobs == [])
    ensures After(c, run).tally == Tally(|Kept(c, run, Pass)|, |Kept(c, run, Fail)|, |Kept(c, run, Valgrind)|,
                                         |Kept(c, run, Crash)|, |Kept(c, run, Skip)|)
  {
    RunInv(c, run);
    FinishedIsDone(c, run);
    forall v: Verdict | v != TurnedBack ensures CountOf(After(c, run).collected, v) == |Kept(c, run, v)| {
      KeptAreCollected(c, run, v);
      IdsCounted(After(c, run).collected, v);
    }
  }
}
