/** Where each result of the parallel runner comes from, with or without an interrupt: the step that decided it. */
module Interrupts {
  import opened TestRunner
  import opened Wrappers

  // ----- One place for each job -----

  /** A place that can hold a job. */
  datatype Place = AtWorker(w: nat) | InOutput(i: nat) | InReceived(i: nat)

  ghost predicate At(s: State, p: Place, id: nat) {
    match p
    case AtWorker(w) => w < |s.workers| && OfWorker(Job(id), s.workers[w]) == 1
    case InOutput(i) => i < |s.output| && s.output[i].id == id
    case InReceived(i) => i < |s.received| && s.received[i].id == id
  }

  lemma {:induction false} ResultCounts(id: nat, rs: seq<Result>, i: nat)
    requires i < |rs| && rs[i].id == id
    ensures InResults(id, rs) >= 1
    ensures forall j | 0 <= j < |rs| && j != i && rs[j].id == id :: InResults(id, rs) >= 2
  {
    var n := |rs| - 1;
    if i == n {
      forall j | 0 <= j < n && rs[j].id == id ensures InResults(id, rs) >= 2 {
        ResultCounts(id, rs[..n], j);
      }
    } else {
      ResultCounts(id, rs[..n], i);
      forall j | 0 <= j < n && j != i && rs[j].id == id ensures InResults(id, rs) >= 2 {
        assert rs[..n][j] == rs[j];
      }
    }
  }

  lemma WorkersCount(id: nat, ws: seq<Worker>, v: nat, w: nat)
    requires v < |ws| && w < |ws| && v != w && OfWorker(Job(id), ws[v]) == 1 && OfWorker(Job(id), ws[w]) == 1
    ensures InWorkers(Job(id), ws) >= 2
  {
    WorkersUpdate(Job(id), ws, v, Idle);
    WorkersUpdate(Job(id), ws[v := Idle], w, Idle);
  }

  lemma AtCounts(s: State, p: Place, id: nat)
    requires At(s, p, id)
    ensures match p
            case AtWorker(_) => InWorkers(Job(id), s.workers) >= 1
            case InOutput(_) => InResults(id, s.output) >= 1
            case InReceived(_) => InResults(id, s.received) >= 1
  {
    match p
    case AtWorker(w) => WorkersUpdate(Job(id), s.workers, w, Idle);
    case InOutput(i) => ResultCounts(id, s.output, i);
    case InReceived(i) => ResultCounts(id, s.received, i);
  }

  /** In a state that conserves jobs, a job has one place. */
  lemma OnePlace(s: State, p: Place, q: Place, id: nat)
    requires Conserved(s) && At(s, p, id) && At(s, q, id)
    ensures p == q
  {
    assert Places(s, id) == if id < s.dispatched then 1 else 0;
    AtCounts(s, p, id);
    AtCounts(s, q, id);
    if p != q {
      if p.AtWorker? && q.AtWorker? {
        WorkersCount(id, s.workers, p.w, q.w);
      } else if p.InOutput? && q.InOutput? {
        ResultCounts(id, s.output, p.i);
      } else if p.InReceived? && q.InReceived? {
        ResultCounts(id, s.received, p.i);
      }
    }
  }

  // ----- Results stay what they are -----

  /** A worker is putting the result, or it is in the output queue or received. */
  ghost predicate ResultAt(s: State, p: Place, r: Result) {
    match p
    case AtWorker(w) => w < |s.workers| && s.workers[w] == Putting(r)
    case InOutput(i) => i < |s.output| && s.output[i] == r
    case InReceived(i) => i < |s.received| && s.received[i] == r
  }

  ghost predicate Has(s: State, r: Result) {
    exists p :: ResultAt(s, p, r)
  }

  lemma AtOfResult(s: State, p: Place, r: Result)
    requires ResultAt(s, p, r)
    ensures At(s, p, r.id)
  {}

  /** A job has one result. */
  lemma OneResult(s: State, r: Result, r': Result)
    requires Conserved(s) && Has(s, r) && Has(s, r') && r.id == r'.id
    ensures r == r'
  {
    var p :| ResultAt(s, p, r);
    var q :| ResultAt(s, q, r');
    AtOfResult(s, p, r);
    AtOfResult(s, q, r');
    OnePlace(s, p, q, r.id);
  }

  /** Where a step takes the result at `p`. */
  ghost function PlaceAfter(s: State, step: Step, p: Place): Place {
    if step.Put? && p == AtWorker(step.w) then InOutput(|s.output|)
    else if step.Collect? && p == InOutput(0) then InReceived(|s.received|)
    else if step.Collect? && p.InOutput? then InOutput(p.i - 1)
    else p
  }

  /** And where it was before. */
  ghost function PlaceBefore(s: State, step: Step, q: Place): Place {
    if step.Put? && q == InOutput(|s.output|) then AtWorker(step.w)
    else if step.Collect? && q == InReceived(|s.received|) then InOutput(0)
    else if step.Collect? && q.InOutput? then InOutput(q.i + 1)
    else q
  }

  lemma StepKeepsResult(c: Config, s: State, step: Step, r: Result)
    requires Enabled(c, s, step) && Has(s, r)
    ensures Has(Apply(c, s, step), r)
  {
    var t := Apply(c, s, step);
    var p :| ResultAt(s, p, r);
    assert ResultAt(t, PlaceAfter(s, step, p), r);
  }

  // ----- The step that decided a result -----

  /** In state `s`, `step` decides that the result is `r`: the worker holding the job sees the flag, or that the job is to be
      skipped, or the job it runs returns. */
  ghost predicate Decides(c: Config, s: State, step: Step, r: Result) {
    match r.report
    case Interrupted => step.Check? && HasWorker(s, step.w, Holding(r.id)) && s.exit
    case Skipped => step.Check? && HasWorker(s, step.w, Holding(r.id)) && !s.exit && r.id < |c.skips| && c.skips[r.id]
    case Ran(code) => step.Return? && HasWorker(s, step.w, Running(r.id)) && step.code == code
  }

  ghost predicate HasWorker(s: State, w: nat, worker: Worker) {
    w < |s.workers| && s.workers[w] == worker
  }

  ghost predicate DecidedBy(c: Config, trace: seq<Step>, m: nat, r: Result)
    requires m < |trace|
  {
    Exec(c, trace[..m]).Some? && Decides(c, Exec(c, trace[..m]).value, trace[m], r)
  }

  lemma StepDecides(c: Config, s: State, step: Step, r: Result)
    requires Enabled(c, s, step)
    ensures Has(Apply(c, s, step), r) <==> Has(s, r) || Decides(c, s, step, r)
  {
    var t := Apply(c, s, step);
    if Has(s, r) {
      StepKeepsResult(c, s, step, r);
    }
    if Decides(c, s, step, r) {
      assert ResultAt(t, AtWorker(step.w), r);
    }
    if Has(t, r) && !Decides(c, s, step, r) {
      var q :| ResultAt(t, q, r);
      assert ResultAt(s, PlaceBefore(s, step, q), r);
    }
  }

  lemma Prefix(trace: seq<Step>, m: nat)
    requires trace != [] && m < |trace|
    ensures trace[..|trace| - 1][..m] == trace[..m]
  {}

  /** After any run, with an interrupt anywhere or none, a result is there exactly if some step of the run decided it. */
  lemma {:induction false} ResultsAreDecided(c: Config, trace: seq<Step>, r: Result)
    requires Exec(c, trace).Some?
    ensures Has(Exec(c, trace).value, r) <==> exists m: nat :: m < |trace| && DecidedBy(c, trace, m, r)
    decreases |trace|
  {
    if trace == [] {
      NothingAtFirst(c, r);
    } else {
      var n := |trace| - 1;
      var before := trace[..n];
      ResultsAreDecided(c, before, r);
      StepDecides(c, Exec(c, before).value, trace[n], r);
      forall m: nat | m < n ensures DecidedBy(c, before, m, r) <==> DecidedBy(c, trace, m, r) {
        Prefix(trace, m);
      }
      assert DecidedBy(c, trace, n, r) <==> Decides(c, Exec(c, before).value, trace[n], r);
    }
  }

  lemma NothingAtFirst(c: Config, r: Result)
    ensures !Has(Init(c), r)
  {}

  // ----- From one state of a run to a later one -----

  lemma {:induction false} RunTo(c: Config, trace: seq<Step>, n: nat)
    requires n <= |trace| && Exec(c, trace).Some?
    ensures Exec(c, trace[..n]).Some?
    decreases |trace|
  {
    if n == |trace| {
      assert trace[..n] == trace;
    } else {
      Prefix(trace, n);
      RunTo(c, trace[..|trace| - 1], n);
    }
  }

  /** A result stays in every later state. */
  lemma {:induction false} ResultsStay(c: Config, trace: seq<Step>, n: nat, r: Result)
    requires n <= |trace| && Exec(c, trace).Some? && Exec(c, trace[..n]).Some? && Has(Exec(c, trace[..n]).value, r)
    ensures Has(Exec(c, trace).value, r)
    decreases |trace|
  {
    if n == |trace| {
      assert trace[..n] == trace;
    } else {
      var before := trace[..|trace| - 1];
      Prefix(trace, n);
      ResultsStay(c, before, n, r);
      StepKeepsResult(c, Exec(c, before).value, trace[|trace| - 1], r);
    }
  }

  lemma StepKeepsDecided(c: Config, s: State, step: Step, id: nat)
    requires Enabled(c, s, step) && Decided(s, id)
    ensures Decided(Apply(c, s, step), id)
  {
    var t := Apply(c, s, step);
    if w :| 0 <= w < |s.workers| && s.workers[w] == Running(id) {
      assert w < |t.workers| && (t.workers[w] == Running(id) || (t.workers[w].Putting? && t.workers[w].result.id == id));
    } else {
      var r := SomeResult(s, id);
      StepKeepsResult(c, s, step, r);
      DecidedIfHas(t, r);
    }
  }

  lemma SomeResult(s: State, id: nat) returns (r: Result)
    requires Decided(s, id) && forall w | 0 <= w < |s.workers| :: s.workers[w] != Running(id)
    ensures Has(s, r) && r.id == id
  {
    if w :| 0 <= w < |s.workers| && s.workers[w].Putting? && s.workers[w].result.id == id {
      r := s.workers[w].result;
      assert ResultAt(s, AtWorker(w), r);
    } else if i :| 0 <= i < |s.output| && s.output[i].id == id {
      r := s.output[i];
      assert ResultAt(s, InOutput(i), r);
    } else {
      var i :| 0 <= i < |s.received| && s.received[i].id == id;
      r := s.received[i];
      assert ResultAt(s, InReceived(i), r);
    }
  }

  lemma DecidedIfHas(s: State, r: Result)
    requires Has(s, r)
    ensures Decided(s, r.id)
  {
    var p :| ResultAt(s, p, r);
  }

  lemma {:induction false} DecidedStays(c: Config, trace: seq<Step>, n: nat, id: nat)
    requires n <= |trace| && Exec(c, trace).Some? && Exec(c, trace[..n]).Some? && Decided(Exec(c, trace[..n]).value, id)
    ensures Decided(Exec(c, trace).value, id)
    decreases |trace|
  {
    if n == |trace| {
      assert trace[..n] == trace;
    } else {
      var before := trace[..|trace| - 1];
      Prefix(trace, n);
      DecidedStays(c, before, n, id);
      StepKeepsDecided(c, Exec(c, before).value, trace[|trace| - 1], id);
    }
  }

  /** The flag is never cleared. */
  lemma {:induction false} FlagStays(c: Config, trace: seq<Step>, n: nat)
    requires n <= |trace| && Exec(c, trace).Some? && Exec(c, trace[..n]).Some? && Exec(c, trace[..n]).value.exit
    ensures Exec(c, trace).value.exit
    decreases |trace|
  {
    if n == |trace| {
      assert trace[..n] == trace;
    } else {
      Prefix(trace, n);
      FlagStays(c, trace[..|trace| - 1], n);
    }
  }

  /** A job that a worker still has to look at is not decided. */
  lemma HeldIsUndecided(s: State, w: nat, id: nat)
    requires Conserved(s) && HasWorker(s, w, Holding(id))
    ensures !Decided(s, id)
  {
    if Decided(s, id) {
      if v :| 0 <= v < |s.workers| && s.workers[v] == Running(id) {
        OnePlace(s, AtWorker(w), AtWorker(v), id);
      } else {
        var r := SomeResult(s, id);
        var p :| ResultAt(s, p, r);
        AtOfResult(s, p, r);
        OnePlace(s, AtWorker(w), p, id);
      }
    }
  }

  lemma RunningHasNoResult(s: State, w: nat, r: Result)
    requires Conserved(s) && HasWorker(s, w, Running(r.id))
    ensures !Has(s, r)
  {
    if Has(s, r) {
      var p :| ResultAt(s, p, r);
      AtOfResult(s, p, r);
      OnePlace(s, AtWorker(w), p, r.id);
    }
  }

  // ----- What an interrupt does and does not change -----

  /** What has a result at some moment of a run comes back with that result. */
  lemma ResultsUnchanged(c: Config, trace: seq<Step>, n: nat, r: Result, r': Result)
    requires n <= |trace| && Exec(c, trace).Some? && Exec(c, trace[..n]).Some?
    requires Has(Exec(c, trace[..n]).value, r) && Has(Exec(c, trace).value, r') && r.id == r'.id
    ensures r' == r
  {
    ResultsStay(c, trace, n, r);
    RunsKeepInv(c, trace);
    OneResult(Exec(c, trace).value, r, r');
  }

  /** A job decided at `n`, but without a result there, is decided by a later step, and that is the return of the job. */
  lemma DecidedByReturn(c: Config, trace: seq<Step>, n: nat, w: nat, r: Result) returns (m: nat)
    requires n <= |trace| && Exec(c, trace).Some? && Exec(c, trace[..n]).Some?
    requires HasWorker(Exec(c, trace[..n]).value, w, Running(r.id)) && Has(Exec(c, trace).value, r)
    ensures n <= m < |trace| && trace[m].Return? && r.report == Ran(trace[m].code)
    ensures Exec(c, trace[..m]).Some? && HasWorker(Exec(c, trace[..m]).value, trace[m].w, Running(r.id))
  {
    var at := Exec(c, trace[..n]).value;
    ResultsAreDecided(c, trace, r);
    m :| m < |trace| && DecidedBy(c, trace, m, r);
    RunsKeepInv(c, trace[..n]);
    if m < n {
      RunningHasNoResult(at, w, r);
      EarlierDecision(c, trace, n, m, r);
    } else {
      var s := Exec(c, trace[..m]).value;
      RunsKeepInv(c, trace[..m]);
      assert trace[..m][..n] == trace[..n];
      assert Decided(at, r.id);
      DecidedStays(c, trace[..m], n, r.id);
      if trace[m].Check? && HasWorker(s, trace[m].w, Holding(r.id)) {
        HeldIsUndecided(s, trace[m].w, r.id);
      }
    }
  }

  /** What was decided before `n` has its result at `n`. */
  lemma EarlierDecision(c: Config, trace: seq<Step>, n: nat, m: nat, r: Result)
    requires m < n <= |trace| && Exec(c, trace[..n]).Some? && DecidedBy(c, trace, m, r)
    ensures Has(Exec(c, trace[..n]).value, r)
  {
    assert trace[..n][..m] == trace[..m];
    assert DecidedBy(c, trace[..n], m, r);
    ResultsAreDecided(c, trace[..n], r);
  }

  /** The job that a worker is running when the flag is set keeps its return code: it comes back with the code of its own
      return. */
  lemma RunningJobKeepsItsCode(c: Config, trace: seq<Step>, n: nat, w: nat, r: Result)
    requires n <= |trace| && Exec(c, trace).Some? && Exec(c, trace[..n]).Some?
    requires HasWorker(Exec(c, trace[..n]).value, w, Running(r.id)) && Has(Exec(c, trace).value, r)
    ensures exists m :: n <= m < |trace| && trace[m].Return? && r.report == Ran(trace[m].code)
                     && Exec(c, trace[..m]).Some? && HasWorker(Exec(c, trace[..m]).value, trace[m].w, Running(r.id))
  {
    var m := DecidedByReturn(c, trace, n, w, r);
  }

  lemma InterruptStep(c: Config, trace: seq<Step>, n: nat)
    requires n < |trace| && trace[n] == Interrupt && Exec(c, trace).Some?
    ensures Exec(c, trace[..n]).Some? && !Exec(c, trace[..n]).value.exit
    ensures Exec(c, trace[..n + 1]) == Some(Exec(c, trace[..n]).value.(exit := true))
  {
    RunTo(c, trace, n);
    RunTo(c, trace, n + 1);
    assert trace[..n + 1][..n] == trace[..n];
  }

  lemma OtherwiseDecided(at: State, s: State, r: Result)
    requires NothingStarted(at.(exit := true), s) && Has(s, r) && r.report != Interrupted
    ensures Decided(at, r.id)
  {
    var p :| ResultAt(s, p, r);
    assert BreakOr(at.(exit := true), r);
  }

  /** If the interrupt is step `n` of a run, a job comes back as a break exactly if no worker had decided it then. */
  lemma BreaksExactly(c: Config, trace: seq<Step>, n: nat, r: Result)
    requires n < |trace| && trace[n] == Interrupt && Exec(c, trace).Some? && Has(Exec(c, trace).value, r)
    ensures Exec(c, trace[..n]).Some?
    ensures r.report == Interrupted <==> !Decided(Exec(c, trace[..n]).value, r.id)
  {
    InterruptStep(c, trace, n);
    if r.report == Interrupted {
      BreakWasUndecided(c, trace, n, r);
    } else {
      InterruptStopsWork(c, trace, n + 1);
      OtherwiseDecided(Exec(c, trace[..n]).value, Exec(c, trace).value, r);
    }
  }

  lemma BreakWasUndecided(c: Config, trace: seq<Step>, n: nat, r: Result)
    requires n < |trace| && Exec(c, trace).Some? && Has(Exec(c, trace).value, r) && r.report == Interrupted
    requires Exec(c, trace[..n]).Some? && !Exec(c, trace[..n]).value.exit
    ensures !Decided(Exec(c, trace[..n]).value, r.id)
  {
    ResultsAreDecided(c, trace, r);
    var m: nat :| m < |trace| && DecidedBy(c, trace, m, r);
    var s := Exec(c, trace[..m]).value;
    if m <= n {
      assert trace[..n][..m] == trace[..m];
      FlagStays(c, trace[..n], m);
    } else {
      assert trace[..m][..n] == trace[..n];
      RunsKeepInv(c, trace[..m]);
      HeldIsUndecided(s, trace[m].w, r.id);
      if Decided(Exec(c, trace[..n]).value, r.id) {
        DecidedStays(c, trace[..m], n, r.id);
      }
    }
  }
}
