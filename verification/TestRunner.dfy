/** The parallel part of test.py: the main thread, its worker threads, the two queues between
    them and the interrupt flag, as a state machine over the steps a scheduler can pick.
  */
module TestRunner {
  import opened Wrappers

  /** What is fixed when the worker threads start: which jobs are to be skipped, and how many workers there are. */
  datatype Config = Config(skips: seq<bool>, workers: nat)

  /** How a job comes back: as a "break" after an interrupt, as a skip, or with a return code. */
  datatype Report = Interrupted | Skipped | Ran(code: int)

  datatype Result = Result(id: nat, report: Report)

  datatype Item = Work(id: nat) | Sentinel

  datatype Worker =
    | Idle
    | Holding(id: nat)
    | Running(id: nat)
    | Putting(result: Result)
    | Exited

  /** The main thread dispatches all jobs, queues one sentinel per worker, collects one result per
      job and joins the workers in order; its four counters say where it is. */
  datatype State = State(
    dispatched: nat,
    sentinels: nat,
    received: seq<Result>,
    joined: nat,
    input: seq<Item>,
    workers: seq<Worker>,
    output: seq<Result>,
    exit: bool)

  datatype Step =
    | Dispatch
    | QueueSentinel
    | Collect
    | Join
    | Take(w: nat)
    | Check(w: nat)
    | Return(w: nat, code: int)
    | Put(w: nat)
    | Interrupt

  function AllIdle(n: nat): (ws: seq<Worker>)
    ensures |ws| == n && forall w | 0 <= w < n :: ws[w] == Idle
  {
    if n == 0 then [] else AllIdle(n - 1) + [Idle]
  }

  function Init(c: Config): State {
    State(0, 0, [], 0, [], AllIdle(c.workers), [], false)
  }

  predicate Enabled(c: Config, s: State, step: Step) {
    match step
    case Dispatch => s.dispatched < |c.skips|
    case QueueSentinel => s.dispatched == |c.skips| && s.sentinels < c.workers
    case Collect => s.sentinels == c.workers && |s.received| < |c.skips| == s.dispatched && s.output != []
    case Join =>
      && s.sentinels == c.workers && |s.received| == |c.skips| == s.dispatched
      && s.joined < c.workers && s.joined < |s.workers| && s.workers[s.joined].Exited?
    case Take(w) => w < |s.workers| && s.workers[w].Idle? && s.input != []
    case Check(w) => w < |s.workers| && s.workers[w].Holding? && s.workers[w].id < |c.skips|
    case Return(w, _) => w < |s.workers| && s.workers[w].Running?
    case Put(w) => w < |s.workers| && s.workers[w].Putting?
    case Interrupt => !s.exit
  }

  function Apply(c: Config, s: State, step: Step): State
    requires Enabled(c, s, step)
  {
    match step
    case Dispatch => s.(dispatched := s.dispatched + 1, input := s.input + [Work(s.dispatched)])
    case QueueSentinel => s.(sentinels := s.sentinels + 1, input := s.input + [Sentinel])
    case Collect => s.(received := s.received + [s.output[0]], output := s.output[1..])
    case Join => s.(joined := s.joined + 1)
    case Take(w) =>
      var next := match s.input[0] case Sentinel => Exited case Work(id) => Holding(id);
      s.(input := s.input[1..], workers := s.workers[w := next])
    case Check(w) =>
      var id := s.workers[w].id;
      var next :=
        if s.exit then Putting(Result(id, Interrupted))
        else if c.skips[id] then Putting(Result(id, Skipped))
        else Running(id);
      s.(workers := s.workers[w := next])
    case Return(w, code) => s.(workers := s.workers[w := Putting(Result(s.workers[w].id, Ran(code)))])
    case Put(w) => s.(output := s.output + [s.workers[w].result], workers := s.workers[w := Idle])
    case Interrupt => s.(exit := true)
  }

  /** The state after the steps of `trace`, or None if one of them cannot be taken. */
  function Exec(c: Config, trace: seq<Step>): Option<State> {
    if trace == [] then Some(Init(c))
    else
      match Exec(c, trace[..|trace| - 1])
      case None => None
      case Some(s) =>
        if Enabled(c, s, trace[|trace| - 1]) then Some(Apply(c, s, trace[|trace| - 1])) else None
  }

  /** `run_tests` gets past its last join. */
  predicate Finished(c: Config, s: State) {
    s.joined == c.workers
  }

  // ----- Counting over queues and workers -----

  /** What is counted: the places holding one job, busy workers, workers that have returned, or
      the steps still to be taken for what is in a place. */
  datatype Metric = Job(id: nat) | Busy | Exits | StepsLeft

  function OfWorker(m: Metric, w: Worker): nat {
    match m
    case Job(id) =>
      (match w
       case Holding(j) => if j == id then 1 else 0
       case Running(j) => if j == id then 1 else 0
       case Putting(r) => if r.id == id then 1 else 0
       case _ => 0)
    case Busy => if w.Idle? || w.Exited? then 0 else 1
    case Exits => if w.Exited? then 1 else 0
    case StepsLeft =>
      match w
      case Holding(_) => 4
      case Running(_) => 3
      case Putting(_) => 2
      case _ => 0
  }

  function OfItem(m: Metric, i: Item): nat {
    match m
    case Job(id) => if i == Work(id) then 1 else 0
    case StepsLeft => if i.Work? then 5 else 1
    case _ => 0
  }

  function InWorkers(m: Metric, ws: seq<Worker>): nat {
    if ws == [] then 0 else InWorkers(m, ws[..|ws| - 1]) + OfWorker(m, ws[|ws| - 1])
  }

  function InQueue(m: Metric, items: seq<Item>): nat {
    if items == [] then 0 else InQueue(m, items[..|items| - 1]) + OfItem(m, items[|items| - 1])
  }

  function InResults(id: nat, rs: seq<Result>): nat {
    if rs == [] then 0 else InResults(id, rs[..|rs| - 1]) + (if rs[|rs| - 1].id == id then 1 else 0)
  }

  lemma {:induction false} WorkersUpdate(m: Metric, ws: seq<Worker>, w: nat, x: Worker)
    requires w < |ws|
    ensures InWorkers(m, ws[w := x]) + OfWorker(m, ws[w]) == InWorkers(m, ws) + OfWorker(m, x)
    ensures InWorkers(m, ws) >= OfWorker(m, ws[w])
  {
    var n := |ws| - 1;
    if w < n {
      WorkersUpdate(m, ws[..n], w, x);
      assert ws[w := x][..n] == ws[..n][w := x];
    } else {
      assert ws[w := x][..n] == ws[..n];
    }
  }

  lemma {:induction false} QueueFirst(m: Metric, items: seq<Item>)
    requires items != []
    ensures InQueue(m, items) == OfItem(m, items[0]) + InQueue(m, items[1..])
  {
    if |items| > 1 {
      QueueFirst(m, items[..|items| - 1]);
      assert items[1..][..|items| - 2] == items[..|items| - 1][1..];
    } else {
      assert items[..0] == [] && items[1..] == [];
    }
  }

  lemma QueueLast(m: Metric, items: seq<Item>, x: Item)
    ensures InQueue(m, items + [x]) == InQueue(m, items) + OfItem(m, x)
  {
    assert (items + [x])[..|items|] == items;
  }

  lemma {:induction false} ResultsFirst(id: nat, rs: seq<Result>)
    requires rs != []
    ensures InResults(id, rs) == (if rs[0].id == id then 1 else 0) + InResults(id, rs[1..])
  {
    if |rs| > 1 {
      ResultsFirst(id, rs[..|rs| - 1]);
      assert rs[1..][..|rs| - 2] == rs[..|rs| - 1][1..];
    } else {
      assert rs[..0] == [] && rs[1..] == [];
    }
  }

  lemma ResultsLast(id: nat, rs: seq<Result>, r: Result)
    ensures InResults(id, rs + [r]) == InResults(id, rs) + (if r.id == id then 1 else 0)
  {
    assert (rs + [r])[..|rs|] == rs;
  }

  lemma {:induction false} AllIdleCount(m: Metric, n: nat)
    ensures InWorkers(m, AllIdle(n)) == 0
  {
    if n == 0 {
    } else {
      var before := AllIdle(n - 1);
      AllIdleCount(m, n - 1);
      assert (before + [Idle])[..n - 1] == before;
    }
  }

  // ----- What every step keeps -----

  /** The places job `id` is in: the input queue, a worker, the output queue, the main thread's results. */
  function Places(s: State, id: nat): nat {
    InQueue(Job(id), s.input) + InWorkers(Job(id), s.workers) + InResults(id, s.output) + InResults(id, s.received)
  }

  /** Each dispatched job is in exactly one place, and no other job is anywhere. */
  ghost predicate Conserved(s: State) {
    forall id: nat :: Places(s, id) == if id < s.dispatched then 1 else 0
  }

  /** The input queue is first in, first out: the jobs still in it are the last `waiting` ones
      dispatched, in order, and every sentinel that no worker has taken comes after all of them.
      The other jobs are with busy workers, in the output queue or received. */
  ghost predicate InputShape(s: State, waiting: nat) {
    && waiting <= s.dispatched && waiting <= |s.input|
    && |s.input| - waiting == s.sentinels - InWorkers(Exits, s.workers)
    && (forall i | 0 <= i < waiting :: s.input[i] == Work(s.dispatched - waiting + i))
    && (forall i | waiting <= i < |s.input| :: s.input[i] == Sentinel)
    && (InWorkers(Exits, s.workers) > 0 ==> waiting == 0)
    && waiting + InWorkers(Busy, s.workers) + |s.output| + |s.received| == s.dispatched
  }

  ghost predicate Counters(c: Config, s: State) {
    && |s.workers| == c.workers
    && s.dispatched <= |c.skips| && s.sentinels <= c.workers
    && |s.received| <= |c.skips| && s.joined <= c.workers
    && (s.sentinels > 0 ==> s.dispatched == |c.skips|)
    && (s.received != [] ==> s.sentinels == c.workers)
    && (s.joined > 0 ==> s.sentinels == c.workers && |s.received| == |c.skips| == s.dispatched)
    && (forall w | 0 <= w < s.joined :: s.workers[w].Exited?)
  }

  ghost predicate Inv(c: Config, s: State) {
    Counters(c, s) && Conserved(s) && exists waiting :: InputShape(s, waiting)
  }

  /** No step loses, copies or invents a job. */
  lemma StepConserves(c: Config, s: State, step: Step)
    requires Enabled(c, s, step) && Conserved(s)
    ensures Conserved(Apply(c, s, step))
  {
    var t := Apply(c, s, step);
    forall id: nat ensures Places(t, id) == if id < t.dispatched then 1 else 0 {
      assert Places(s, id) == if id < s.dispatched then 1 else 0;
      PlacesAfter(c, s, step, id);
    }
  }

  lemma PlacesAfter(c: Config, s: State, step: Step, id: nat)
    requires Enabled(c, s, step)
    ensures Places(Apply(c, s, step), id) ==
            Places(s, id) + (if step.Dispatch? && id == s.dispatched then 1 else 0)
  {
    var t := Apply(c, s, step);
    match step
    case Dispatch => QueueLast(Job(id), s.input, Work(s.dispatched));
    case QueueSentinel => QueueLast(Job(id), s.input, Sentinel);
    case Collect => ResultsFirst(id, s.output); ResultsLast(id, s.received, s.output[0]);
    case Join =>
    case Take(w) => QueueFirst(Job(id), s.input); WorkersUpdate(Job(id), s.workers, w, t.workers[w]);
    case Check(w) => WorkersUpdate(Job(id), s.workers, w, t.workers[w]);
    case Return(w, _) => WorkersUpdate(Job(id), s.workers, w, t.workers[w]);
    case Put(w) => WorkersUpdate(Job(id), s.workers, w, Idle); ResultsLast(id, s.output, s.workers[w].result);
    case Interrupt =>
  }

  lemma StepCounters(c: Config, s: State, step: Step)
    requires Enabled(c, s, step) && Counters(c, s)
    ensures Counters(c, Apply(c, s, step))
  {}

  lemma StepInputShape(c: Config, s: State, step: Step, waiting: nat)
    requires Enabled(c, s, step) && Counters(c, s) && InputShape(s, waiting)
    ensures exists k :: InputShape(Apply(c, s, step), k)
  {
    match step
    case Dispatch => QueueingKeepsShape(c, s, step, waiting);
    case QueueSentinel => QueueingKeepsShape(c, s, step, waiting);
    case Take(w) => TakingKeepsShape(c, s, w, waiting);
    case _ => OthersKeepShape(c, s, step, waiting);
  }

  lemma QueueingKeepsShape(c: Config, s: State, step: Step, waiting: nat)
    requires (step.Dispatch? || step.QueueSentinel?) && Enabled(c, s, step) && Counters(c, s) && InputShape(s, waiting)
    ensures InputShape(Apply(c, s, step), if step.Dispatch? then waiting + 1 else waiting)
  {}

  lemma TakingKeepsShape(c: Config, s: State, w: nat, waiting: nat)
    requires Enabled(c, s, Take(w)) && Counters(c, s) && InputShape(s, waiting)
    ensures InputShape(Apply(c, s, Take(w)), if waiting > 0 then waiting - 1 else 0)
  {
    var t := Apply(c, s, Take(w));
    WorkersUpdate(Exits, s.workers, w, t.workers[w]);
    WorkersUpdate(Busy, s.workers, w, t.workers[w]);
  }

  lemma OthersKeepShape(c: Config, s: State, step: Step, waiting: nat)
    requires Enabled(c, s, step) && InputShape(s, waiting)
    requires !step.Dispatch? && !step.QueueSentinel? && !step.Take?
    ensures InputShape(Apply(c, s, step), waiting)
  {
    var t := Apply(c, s, step);
    if step.Check? || step.Return? || step.Put? {
      WorkersUpdate(Exits, s.workers, step.w, t.workers[step.w]);
      WorkersUpdate(Busy, s.workers, step.w, t.workers[step.w]);
    }
  }

  /** Whatever the schedule, and wherever the interrupt comes, the invariant holds after every step. */
  lemma {:induction false} RunsKeepInv(c: Config, trace: seq<Step>)
    ensures Exec(c, trace).Some? ==> Inv(c, Exec(c, trace).value)
  {
    if trace == [] {
      AllIdleCount(Exits, c.workers);
      AllIdleCount(Busy, c.workers);
      assert InputShape(Init(c), 0);
      forall id: nat ensures Places(Init(c), id) == 0 { AllIdleCount(Job(id), c.workers); }
    } else if Exec(c, trace).Some? {
      RunsKeepInv(c, trace[..|trace| - 1]);
      var s, step := Exec(c, trace[..|trace| - 1]).value, trace[|trace| - 1];
      StepConserves(c, s, step);
      StepCounters(c, s, step);
      var waiting :| InputShape(s, waiting);
      StepInputShape(c, s, step, waiting);
    }
  }

  /** In every reachable state a dispatched job is in one place only: the input queue, one worker,
      the output queue or the main thread's results. */
  lemma EachJobInOnePlace(c: Config, trace: seq<Step>, id: nat)
    requires Exec(c, trace).Some?
    ensures var s := Exec(c, trace).value;
      InQueue(Job(id), s.input) + InWorkers(Job(id), s.workers) + InResults(id, s.output) + InResults(id, s.received)
      == if id < s.dispatched then 1 else 0
  {
    RunsKeepInv(c, trace);
    assert Places(Exec(c, trace).value, id) == if id < Exec(c, trace).value.dispatched then 1 else 0;
  }

  // ----- No reachable state is stuck -----

  lemma {:induction false} SomebodyBusy(ws: seq<Worker>) returns (w: nat)
    requires InWorkers(Busy, ws) > 0
    ensures w < |ws| && OfWorker(Busy, ws[w]) > 0
  {
    var n := |ws| - 1;
    if OfWorker(Busy, ws[n]) > 0 {
      w := n;
    } else {
      w := SomebodyBusy(ws[..n]);
    }
  }

  /** A worker that holds a job can always take its next step. */
  lemma BusyWorkerCanStep(c: Config, s: State, w: nat) returns (step: Step)
    requires Inv(c, s) && w < |s.workers| && OfWorker(Busy, s.workers[w]) > 0
    ensures Enabled(c, s, step) && !step.Interrupt?
  {
    match s.workers[w]
    case Holding(id) =>
      WorkersUpdate(Job(id), s.workers, w, Idle);
      assert Places(s, id) == if id < s.dispatched then 1 else 0;
      step := Check(w);
    case Running(_) => step := Return(w, 0);
    case Putting(_) => step := Put(w);
    case _ => assert false;
  }

  /** Until the last join returns, some thread can go on by itself. */
  lemma NotStuck(c: Config, s: State) returns (step: Step)
    requires Inv(c, s) && c.workers >= 1 && !Finished(c, s)
    ensures Enabled(c, s, step) && !step.Interrupt?
  {
    var waiting :| InputShape(s, waiting);
    if s.dispatched < |c.skips| {
      return Dispatch;
    }
    if s.sentinels < c.workers {
      return QueueSentinel;
    }
    if InWorkers(Busy, s.workers) > 0 {
      var w := SomebodyBusy(s.workers);
      step := BusyWorkerCanStep(c, s, w);
      return;
    }
    if |s.received| < |c.skips| && s.output != [] {
      return Collect;
    }
    // Nobody is busy, so either a job waits and no worker has left, or only joins remain.
    var w := if waiting > 0 then 0 else s.joined;
    WorkersUpdate(Busy, s.workers, w, Idle);
    WorkersUpdate(Exits, s.workers, w, Idle);
    if s.workers[w].Exited? {
      return Join;
    }
    NotAllExited(s.workers, w);
    step := Take(w);
  }

  lemma {:induction false} NotAllExited(ws: seq<Worker>, w: nat)
    requires w < |ws| && !ws[w].Exited?
    ensures InWorkers(Exits, ws) < |ws|
  {
    if w < |ws| - 1 {
      NotAllExited(ws[..|ws| - 1], w);
    } else {
      AtMostAllExited(ws[..|ws| - 1]);
    }
  }

  lemma {:induction false} AtMostAllExited(ws: seq<Worker>)
    ensures InWorkers(Exits, ws) <= |ws|
  {
    if ws == [] {
    } else {
      AtMostAllExited(ws[..|ws| - 1]);
    }
  }

  // ----- Every run ends -----

  /** The number of steps that are left, at most. */
  function Remaining(c: Config, s: State): int {
    6 * (|c.skips| - s.dispatched) + InQueue(StepsLeft, s.input) + InWorkers(StepsLeft, s.workers) + |s.output|
    + 2 * (c.workers - s.sentinels) + (c.workers - s.joined) + (if s.exit then 0 else 1)
  }

  lemma StepGetsCloser(c: Config, s: State, step: Step)
    requires Enabled(c, s, step)
    ensures Remaining(c, Apply(c, s, step)) < Remaining(c, s)
  {
    var t := Apply(c, s, step);
    match step
    case Dispatch => QueueLast(StepsLeft, s.input, Work(s.dispatched));
    case QueueSentinel => QueueLast(StepsLeft, s.input, Sentinel);
    case Take(w) => QueueFirst(StepsLeft, s.input); WorkersUpdate(StepsLeft, s.workers, w, t.workers[w]);
    case Check(w) => WorkersUpdate(StepsLeft, s.workers, w, t.workers[w]);
    case Return(w, _) => WorkersUpdate(StepsLeft, s.workers, w, t.workers[w]);
    case Put(w) => WorkersUpdate(StepsLeft, s.workers, w, Idle);
    case _ =>
  }

  /** No run is longer than six steps a job, three a worker and one interrupt. */
  lemma {:induction false} RunsAreBounded(c: Config, trace: seq<Step>)
    requires Exec(c, trace).Some?
    ensures |trace| + Remaining(c, Exec(c, trace).value) <= 6 * |c.skips| + 3 * c.workers + 1
    ensures |trace| <= 6 * |c.skips| + 3 * c.workers + 1
  {
    RunsKeepInv(c, trace);
    if trace == [] {
      AllIdleCount(StepsLeft, c.workers);
    } else {
      RunsAreBounded(c, trace[..|trace| - 1]);
      StepGetsCloser(c, Exec(c, trace[..|trace| - 1]).value, trace[|trace| - 1]);
    }
  }

  // ----- What is true at the end -----

  lemma {:induction false} AllExited(ws: seq<Worker>)
    requires forall w | 0 <= w < |ws| :: ws[w].Exited?
    ensures InWorkers(Exits, ws) == |ws|
    ensures forall id :: InWorkers(Job(id), ws) == 0
  {
    if ws == [] {
    } else {
      AllExited(ws[..|ws| - 1]);
    }
  }

  /** When the last join returns, both queues are empty, every worker has taken its own sentinel and
      the main thread has received every job exactly once. */
  lemma FinishedMeansAllReceived(c: Config, s: State)
    requires Inv(c, s) && c.workers >= 1 && Finished(c, s)
    ensures s.input == [] && s.output == [] && s.dispatched == |c.skips| == |s.received|
    ensures forall w | 0 <= w < |s.workers| :: s.workers[w].Exited?
    ensures forall id: nat :: InResults(id, s.received) == if id < |c.skips| then 1 else 0
  {
    var waiting :| InputShape(s, waiting);
    AllExited(s.workers);
    assert s.input == [];
    forall id: nat ensures InResults(id, s.received) == if id < |c.skips| then 1 else 0 {
      assert Places(s, id) == if id < s.dispatched then 1 else 0;
    }
  }

  /** A run that no thread can continue is a finished one, so every run reaches the end. */
  lemma MaximalRunsFinish(c: Config, trace: seq<Step>)
    requires c.workers >= 1 && Exec(c, trace).Some?
    requires forall step: Step :: Enabled(c, Exec(c, trace).value, step) ==> step.Interrupt?
    ensures Finished(c, Exec(c, trace).value)
    ensures forall id: nat :: InResults(id, Exec(c, trace).value.received) == if id < |c.skips| then 1 else 0
  {
    var s := Exec(c, trace).value;
    RunsKeepInv(c, trace);
    if !Finished(c, s) {
      var step := NotStuck(c, s);
      assert false;
    }
    FinishedMeansAllReceived(c, s);
  }

  // ----- After an interrupt -----

  /** A worker has decided what becomes of job `id`. */
  ghost predicate Decided(s: State, id: nat) {
    || (exists w :: 0 <= w < |s.workers| && s.workers[w] == Running(id))
    || (exists w :: 0 <= w < |s.workers| && s.workers[w].Putting? && s.workers[w].result.id == id)
    || (exists i :: 0 <= i < |s.output| && s.output[i].id == id)
    || (exists i :: 0 <= i < |s.received| && s.received[i].id == id)
  }

  /** The result is a break, or its job had been decided in state `at`. */
  ghost predicate BreakOr(at: State, r: Result) {
    r.report == Interrupted || Decided(at, r.id)
  }

  /** No work has been started since the interrupted state `at`. */
  ghost predicate NothingStarted(at: State, s: State) {
    && s.exit
    && (forall w | 0 <= w < |s.workers| && s.workers[w].Running? :: Decided(at, s.workers[w].id))
    && (forall w | 0 <= w < |s.workers| && s.workers[w].Putting? :: BreakOr(at, s.workers[w].result))
    && (forall i | 0 <= i < |s.output| :: BreakOr(at, s.output[i]))
    && (forall i | 0 <= i < |s.received| :: BreakOr(at, s.received[i]))
  }

  lemma StepStartsNothing(c: Config, at: State, s: State, step: Step)
    requires Enabled(c, s, step) && NothingStarted(at, s)
    ensures NothingStarted(at, Apply(c, s, step))
  {}

  /** The interrupt flag takes effect at once: from any interrupted state `n` steps into a run on, no further job is
      executed, and every job that no worker had looked at comes back as a break. */
  lemma {:induction false} InterruptStopsWork(c: Config, trace: seq<Step>, n: nat)
    requires n <= |trace| && Exec(c, trace).Some?
    ensures Exec(c, trace[..n]).Some?
    ensures Exec(c, trace[..n]).value.exit ==> NothingStarted(Exec(c, trace[..n]).value, Exec(c, trace).value)
    decreases |trace|
  {
    if n == |trace| {
      assert trace[..n] == trace;
    } else {
      var before := trace[..|trace| - 1];
      assert before[..n] == trace[..n];
      InterruptStopsWork(c, before, n);
      if Exec(c, trace[..n]).value.exit {
        StepStartsNothing(c, Exec(c, trace[..n]).value, Exec(c, before).value, trace[|trace| - 1]);
      }
    }
  }

  // ----- Results do not depend on the schedule -----

  /** What becomes of job `id` when nothing interrupts the run and executing it returns `codes[id]`. */
  function Expected(c: Config, codes: seq<int>, id: nat): Report
    requires |codes| == |c.skips|
  {
    if id >= |c.skips| then Interrupted
    else if c.skips[id] then Skipped
    else Ran(codes[id])
  }

  ghost predicate AsExpected(c: Config, codes: seq<int>, r: Result)
    requires |codes| == |c.skips|
  {
    r.id < |c.skips| && r.report == Expected(c, codes, r.id)
  }

  ghost predicate AllAsExpected(c: Config, codes: seq<int>, rs: seq<Result>)
    requires |codes| == |c.skips|
  {
    forall i | 0 <= i < |rs| :: AsExpected(c, codes, rs[i])
  }

  /** In state `s`, `step` is not an interrupt, and if a job returns it returns its own code. */
  ghost predicate Faithful(c: Config, codes: seq<int>, s: State, step: Step) {
    match step
    case Interrupt => false
    case Return(w, code) =>
      w < |s.workers| && s.workers[w].Running? && s.workers[w].id < |codes| && code == codes[s.workers[w].id]
    case _ => true
  }

  ghost predicate FaithfulRun(c: Config, codes: seq<int>, trace: seq<Step>) {
    trace != [] ==>
      && FaithfulRun(c, codes, trace[..|trace| - 1])
      && Exec(c, trace[..|trace| - 1]).Some?
      && Faithful(c, codes, Exec(c, trace[..|trace| - 1]).value, trace[|trace| - 1])
  }

  ghost predicate Undisturbed(c: Config, codes: seq<int>, s: State)
    requires |codes| == |c.skips|
  {
    && !s.exit
    && AllAsExpected(c, codes, s.output) && AllAsExpected(c, codes, s.received)
    && forall w | 0 <= w < |s.workers| ::
         && (s.workers[w].Running? ==> s.workers[w].id < |c.skips| && !c.skips[s.workers[w].id])
         && (s.workers[w].Putting? ==> AsExpected(c, codes, s.workers[w].result))
  }

  lemma StepUndisturbed(c: Config, codes: seq<int>, s: State, step: Step)
    requires |codes| == |c.skips| && Enabled(c, s, step)
    requires Undisturbed(c, codes, s) && Faithful(c, codes, s, step)
    ensures Undisturbed(c, codes, Apply(c, s, step))
  {}

  lemma {:induction false} FaithfulRunsUndisturbed(c: Config, codes: seq<int>, trace: seq<Step>)
    requires |codes| == |c.skips| && Exec(c, trace).Some? && FaithfulRun(c, codes, trace)
    ensures Undisturbed(c, codes, Exec(c, trace).value)
  {
    if trace == [] {
    } else {
      FaithfulRunsUndisturbed(c, codes, trace[..|trace| - 1]);
      StepUndisturbed(c, codes, Exec(c, trace[..|trace| - 1]).value, trace[|trace| - 1]);
    }
  }

  lemma {:induction false} ExpectedCount(c: Config, codes: seq<int>, rs: seq<Result>, r: Result)
    requires |codes| == |c.skips| && AllAsExpected(c, codes, rs)
    ensures multiset(rs)[r] == if r.report == Expected(c, codes, r.id) then InResults(r.id, rs) else 0
  {
    if rs == [] {
    } else {
      var n := |rs| - 1;
      ExpectedCount(c, codes, rs[..n], r);
      assert rs == rs[..n] + [rs[n]];
    }
  }

  /** Two finished, uninterrupted runs of the same jobs deliver the same results, in some order each. */
  lemma ResultsIndependentOfSchedule(c: Config, codes: seq<int>, trace1: seq<Step>, trace2: seq<Step>)
    requires c.workers >= 1 && |codes| == |c.skips|
    requires Exec(c, trace1).Some? && FaithfulRun(c, codes, trace1) && Finished(c, Exec(c, trace1).value)
    requires Exec(c, trace2).Some? && FaithfulRun(c, codes, trace2) && Finished(c, Exec(c, trace2).value)
    ensures multiset(Exec(c, trace1).value.received) == multiset(Exec(c, trace2).value.received)
  {
    var r1, r2 := Exec(c, trace1).value.received, Exec(c, trace2).value.received;
    RunsKeepInv(c, trace1);
    RunsKeepInv(c, trace2);
    FinishedMeansAllReceived(c, Exec(c, trace1).value);
    FinishedMeansAllReceived(c, Exec(c, trace2).value);
    FaithfulRunsUndisturbed(c, codes, trace1);
    FaithfulRunsUndisturbed(c, codes, trace2);
    forall r: Result ensures multiset(r1)[r] == multiset(r2)[r] {
      ExpectedCount(c, codes, r1, r);
      ExpectedCount(c, codes, r2, r);
    }
  }
}
