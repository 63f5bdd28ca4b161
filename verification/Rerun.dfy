/** The results file of test.py and the chain of --rerun-failed runs that read each other's files.

    A suite's own result file is taken to carry the suite's display name.
  */
module Rerun {
  import opened Tally
  import opened TestRunner
  import opened Wrappers

  datatype Tag = TestTag | ExampleTag

  datatype Outcome = PASS | FAIL | VALGR | CRASH | SKIP

  datatype Entry = Entry(tag: Tag, name: string, outcome: Outcome)

  function TagOf(kind: Kind): Tag {
    if kind == Suite then TestTag else ExampleTag
  }

  predicate Good(o: Outcome) {
    o == PASS || o == SKIP
  }

  // ----- Writing the results file -----

  /** The outcome written for a result.  A suite that ran to completion is reported as its own file
      says (`own`), with VALGR put in place of it when valgrind found an error. */
  function Written(job: JobInfo, own: Outcome, r: Report): Option<Outcome> {
    match r
    case Interrupted => None
    case Skipped => Some(SKIP)
    case Ran(code) =>
      if code == 2 then Some(VALGR)
      else if code != 0 && code != 1 then Some(CRASH)
      else if job.kind == Suite then Some(own)
      else if code == 0 then Some(PASS)
      else Some(FAIL)
  }

  /** Everything one run leaves behind: its results and the outcomes in the suites' own files. */
  datatype Log = Log(received: seq<Result>, own: seq<Outcome>)

  ghost predicate Recorded(jobs: seq<JobInfo>, log: Log, n: nat, e: Entry) {
    exists i :: 0 <= i < n && i < |log.received| && Writes(jobs, log, i, e)
  }

  ghost predicate Writes(jobs: seq<JobInfo>, log: Log, i: nat, e: Entry)
    requires i < |log.received|
  {
    var r := log.received[i];
    && r.id < |jobs| && r.id < |log.own|
    && e.tag == TagOf(jobs[r.id].kind) && e.name == jobs[r.id].name
    && Written(jobs[r.id], log.own[r.id], r.report) == Some(e.outcome)
  }

  ghost predicate WellFormed(jobs: seq<JobInfo>, log: Log) {
    Known(jobs, log.received) && |log.own| == |jobs|
  }

  /** The collecting loop appends one entry per result that is not a break, and nothing else. */
  method WriteResults(jobs: seq<JobInfo>, log: Log) returns (xml: seq<Entry>)
    requires WellFormed(jobs, log)
    ensures forall e :: e in xml <==> Recorded(jobs, log, |log.received|, e)
  {
    xml := [];
    for i := 0 to |log.received|
      invariant forall e :: e in xml <==> Recorded(jobs, log, i, e)
    {
      var r := log.received[i];
      var job := jobs[r.id];
      ghost var before := xml;
      match Written(job, log.own[r.id], r.report) {
        case None =>
        case Some(o) => xml := xml + [Entry(TagOf(job.kind), job.name, o)];
      }
      forall e ensures e in xml <==> Recorded(jobs, log, i + 1, e) {
        RecordedGrows(jobs, log, i, e);
        assert e in before <==> Recorded(jobs, log, i, e);
      }
    }
  }

  lemma RecordedGrows(jobs: seq<JobInfo>, log: Log, i: nat, e: Entry)
    requires i < |log.received|
    ensures Recorded(jobs, log, i + 1, e) <==> Recorded(jobs, log, i, e) || Writes(jobs, log, i, e)
  {}

  // ----- Reading it back -----

  /** The names a results file lists as passed or skipped, for one of the two kinds of element. */
  method LoadNames(xml: seq<Entry>, tag: Tag) returns (names: seq<string>)
    ensures forall n :: n in names <==> Entry(tag, n, PASS) in xml || Entry(tag, n, SKIP) in xml
  {
    names := [];
    for i := 0 to |xml|
      invariant forall n :: n in names <==> Entry(tag, n, PASS) in xml[..i] || Entry(tag, n, SKIP) in xml[..i]
    {
      if xml[i].tag == tag && (xml[i].outcome == PASS || xml[i].outcome == SKIP) {
        names := names + [xml[i].name];
      }
      assert xml[..i + 1] == xml[..i] + [xml[i]];
    }
    assert xml[..|xml|] == xml;
  }

  method LoadPreviouslySuccessfulTests(xml: seq<Entry>) returns (tests: seq<string>, examples: seq<string>)
    ensures forall n :: n in tests <==> Entry(TestTag, n, PASS) in xml || Entry(TestTag, n, SKIP) in xml
    ensures forall n :: n in examples <==> Entry(ExampleTag, n, PASS) in xml || Entry(ExampleTag, n, SKIP) in xml
  {
    tests := LoadNames(xml, TestTag);
    examples := LoadNames(xml, ExampleTag);
  }

  /** The skip flags of a run that reads `xml`: `base` for what is skipped anyway, and the suites and
      C++ examples listed as successful.  Python examples are never looked up. */
  method DispatchSkips(jobs: seq<JobInfo>, base: seq<bool>, log: Log) returns (skips: seq<bool>)
    requires |base| == |jobs| && WellFormed(jobs, log)
    ensures |skips| == |jobs|
    ensures forall id | 0 <= id < |jobs| :: skips[id] <==> base[id] || SucceededIn(jobs, log, jobs[id])
  {
    var xml := WriteResults(jobs, log);
    var tests, examples := LoadPreviouslySuccessfulTests(xml);
    skips := [];
    for id := 0 to |jobs|
      invariant |skips| == id
      invariant forall k | 0 <= k < id :: skips[k] <==> base[k] || SucceededIn(jobs, log, jobs[k])
    {
      var skip := base[id];
      if jobs[id].kind == Suite && jobs[id].name in tests {
        skip := true;
      }
      if jobs[id].kind == Example && jobs[id].name in examples {
        skip := true;
      }
      skips := skips + [skip];
    }
  }

  /** Run `log` recorded a suite or C++ example of this job's name and kind as PASS or SKIP. */
  ghost predicate SucceededIn(jobs: seq<JobInfo>, log: Log, job: JobInfo) {
    && job.kind != PyExample
    && (|| Recorded(jobs, log, |log.received|, Entry(TagOf(job.kind), job.name, PASS))
        || Recorded(jobs, log, |log.received|, Entry(TagOf(job.kind), job.name, SKIP)))
  }

  // ----- A chain of runs -----

  /** Run number `k` skips job `id`: the first run skips `base` only, and each later one reads the
      file of the run before it. */
  ghost predicate SkippedAt(jobs: seq<JobInfo>, base: seq<bool>, logs: seq<Log>, k: nat, id: nat)
    requires |base| == |jobs| && id < |jobs| && k <= |logs|
  {
    base[id] || (k > 0 && SucceededIn(jobs, logs[k - 1], jobs[id]))
  }

  /** An uninterrupted run to the end: every job comes back, skipped if and only if it was to be skipped. */
  ghost predicate CompleteRun(jobs: seq<JobInfo>, base: seq<bool>, logs: seq<Log>, k: nat)
    requires |base| == |jobs| && k < |logs|
  {
    && WellFormed(jobs, logs[k])
    && (forall id: nat | id < |jobs| :: ComesBack(logs[k].received, id))
    && (forall i | 0 <= i < |logs[k].received| ::
          var r := logs[k].received[i];
          !r.report.Interrupted? && (r.report.Skipped? <==> SkippedAt(jobs, base, logs, k, r.id)))
  }

  ghost predicate ComesBack(received: seq<Result>, id: nat) {
    exists i :: 0 <= i < |received| && received[i].id == id
  }

  ghost predicate Chain(jobs: seq<JobInfo>, base: seq<bool>, logs: seq<Log>)
    requires |base| == |jobs|
  {
    forall k | 0 <= k < |logs| :: CompleteRun(jobs, base, logs, k)
  }

  /** A skipped job is recorded as SKIP, so the next run skips it too. */
  lemma SkipPersists(jobs: seq<JobInfo>, base: seq<bool>, logs: seq<Log>, k: nat, id: nat)
    requires |base| == |jobs| && id < |jobs| && k < |logs| && Chain(jobs, base, logs)
    requires jobs[id].kind != PyExample && SkippedAt(jobs, base, logs, k, id)
    ensures SkippedAt(jobs, base, logs, k + 1, id)
  {
    assert CompleteRun(jobs, base, logs, k);
    var log := logs[k];
    assert ComesBack(log.received, id);
    var i :| 0 <= i < |log.received| && log.received[i].id == id;
    assert log.received[i].report.Skipped?;
    assert Writes(jobs, log, i, Entry(TagOf(jobs[id].kind), jobs[id].name, SKIP));
  }

  /** Once recorded PASS or SKIP, a suite or C++ example is skipped in every later run. */
  lemma {:induction false} OnceGoodAlwaysSkipped(jobs: seq<JobInfo>, base: seq<bool>, logs: seq<Log>,
                                                 k: nat, m: nat, id: nat)
    requires |base| == |jobs| && id < |jobs| && k < m <= |logs| && Chain(jobs, base, logs)
    requires SucceededIn(jobs, logs[k], jobs[id])
    ensures SkippedAt(jobs, base, logs, m, id)
    decreases m
  {
    if m == k + 1 {
    } else {
      OnceGoodAlwaysSkipped(jobs, base, logs, k, m - 1, id);
      SkipPersists(jobs, base, logs, m - 1, id);
    }
  }

  /** Exactly: a suite or C++ example is executed in run `m` unless it is skipped anyway or some
      earlier run of the chain recorded its name as PASS or SKIP. */
  lemma ExecutedExactly(jobs: seq<JobInfo>, base: seq<bool>, logs: seq<Log>, m: nat, id: nat)
    requires |base| == |jobs| && id < |jobs| && m <= |logs| && Chain(jobs, base, logs)
    requires jobs[id].kind != PyExample
    ensures !SkippedAt(jobs, base, logs, m, id) <==>
            !base[id] && forall k | 0 <= k < m :: !SucceededIn(jobs, logs[k], jobs[id])
  {
    forall k | 0 <= k < m && SucceededIn(jobs, logs[k], jobs[id])
      ensures SkippedAt(jobs, base, logs, m, id)
    {
      OnceGoodAlwaysSkipped(jobs, base, logs, k, m, id);
    }
  }

  /** The set of suites and C++ examples that are executed only shrinks along the chain. */
  lemma {:induction false} ExecutedSetShrinks(jobs: seq<JobInfo>, base: seq<bool>, logs: seq<Log>,
                                              k: nat, m: nat, id: nat)
    requires |base| == |jobs| && id < |jobs| && k <= m <= |logs| && Chain(jobs, base, logs)
    requires jobs[id].kind != PyExample && !SkippedAt(jobs, base, logs, m, id)
    ensures !SkippedAt(jobs, base, logs, k, id)
    decreases m - k
  {
    if k == m || !SkippedAt(jobs, base, logs, k, id) {
    } else {
      SkipPersists(jobs, base, logs, k, id);
      ExecutedSetShrinks(jobs, base, logs, k + 1, m, id);
    }
  }

  /** The runs of a chain are what the parallel runner delivers: a finished run that nothing
      interrupted brings back every job, skipped if and only if it was dispatched to be skipped. */
  lemma FinishedRunIsComplete(c: Config, codes: seq<int>, trace: seq<Step>, id: nat, i: nat)
    requires c.workers >= 1 && |codes| == |c.skips|
    requires Exec(c, trace).Some? && FaithfulRun(c, codes, trace) && Finished(c, Exec(c, trace).value)
    ensures id < |c.skips| ==> ComesBack(Exec(c, trace).value.received, id)
    ensures i < |Exec(c, trace).value.received| ==>
              var r := Exec(c, trace).value.received[i];
              r.id < |c.skips| && !r.report.Interrupted? && (r.report.Skipped? <==> c.skips[r.id])
  {
    var s := Exec(c, trace).value;
    RunsKeepInv(c, trace);
    FinishedMeansAllReceived(c, s);
    FaithfulRunsUndisturbed(c, codes, trace);
    if id < |c.skips| {
      assert InResults(id, s.received) == 1;
      SomewhereInResults(id, s.received);
    }
    if i < |s.received| {
      assert AsExpected(c, codes, s.received[i]);
    }
  }

  lemma {:induction false} SomewhereInResults(id: nat, rs: seq<Result>)
    requires InResults(id, rs) > 0
    ensures ComesBack(rs, id)
  {
    var n := |rs| - 1;
    if rs[n].id == id {
    } else {
      SomewhereInResults(id, rs[..n]);
      var i :| 0 <= i < |rs[..n]| && rs[..n][i].id == id;
      assert rs[i].id == id;
    }
  }

  /** Run `k` of a chain, executed by the parallel runner with the skip flags of the chain, is a complete run. */
  lemma RunnerGivesCompleteRun(c: Config, codes: seq<int>, trace: seq<Step>,
                               jobs: seq<JobInfo>, base: seq<bool>, logs: seq<Log>, k: nat)
    requires c.workers >= 1 && |codes| == |c.skips| == |jobs| == |base| && k < |logs|
    requires Exec(c, trace).Some? && FaithfulRun(c, codes, trace) && Finished(c, Exec(c, trace).value)
    requires forall id: nat | id < |jobs| :: c.skips[id] == SkippedAt(jobs, base, logs, k, id)
    requires logs[k].received == Exec(c, trace).value.received && |logs[k].own| == |jobs|
    ensures CompleteRun(jobs, base, logs, k)
  {
    var received := logs[k].received;
    forall i | 0 <= i < |received|
      ensures received[i].id < |jobs| && !received[i].report.Interrupted?
      ensures received[i].report.Skipped? <==> SkippedAt(jobs, base, logs, k, received[i].id)
    {
      FinishedRunIsComplete(c, codes, trace, 0, i);
    }
    forall id: nat | id < |jobs| ensures ComesBack(received, id) {
      FinishedRunIsComplete(c, codes, trace, id, 0);
    }
  }

  // ----- Which results make a job skipped in the next run -----

  /** A result is recorded as PASS or SKIP exactly if the job was skipped, or is an example that returned 0, or is a suite
      that returned 0 or 1 and whose own file says PASS or SKIP. */
  lemma GoodIff(job: JobInfo, own: Outcome, r: Report)
    ensures Written(job, own, r) == Some(PASS) || Written(job, own, r) == Some(SKIP) <==>
            || r == Skipped
            || (job.kind != Suite && r == Ran(0))
            || (job.kind == Suite && (r == Ran(0) || r == Ran(1)) && (own == PASS || own == SKIP))
  {}

  /** And the other outcomes: an interrupted job writes nothing, valgrind errors and crashes are written by their code, and
      the rest is what the suite's file says, or FAIL for an example. */
  lemma OthersIff(job: JobInfo, own: Outcome, r: Report)
    requires own == FAIL || own == PASS || own == SKIP
    ensures Written(job, own, r) == None <==> r == Interrupted
    ensures Written(job, own, r) == Some(VALGR) <==> r == Ran(2)
    ensures Written(job, own, r) == Some(CRASH) <==> r.Ran? && r.code != 0 && r.code != 1 && r.code != 2
    ensures Written(job, own, r) == Some(FAIL) <==>
            if job.kind == Suite then (r == Ran(0) || r == Ran(1)) && own == FAIL else r == Ran(1)
  {}

  /** The result makes its job good. */
  ghost predicate MakesGood(jobs: seq<JobInfo>, log: Log, r: Result) {
    && r.id < |jobs| && r.id < |log.own|
    && (|| r.report == Skipped
        || (jobs[r.id].kind != Suite && r.report == Ran(0))
        || (jobs[r.id].kind == Suite && (r.report == Ran(0) || r.report == Ran(1))
            && (log.own[r.id] == PASS || log.own[r.id] == SKIP)))
  }

  /** The names agree, and both are suites or neither is. */
  predicate SameElement(a: JobInfo, b: JobInfo) {
    a.name == b.name && (a.kind == Suite <==> b.kind == Suite)
  }

  /** A suite or C++ example is skipped in the next run exactly if a result of that name and sort makes it so. */
  lemma SucceededIff(jobs: seq<JobInfo>, log: Log, job: JobInfo)
    requires WellFormed(jobs, log) && job.kind != PyExample
    ensures SucceededIn(jobs, log, job) <==>
            exists i :: 0 <= i < |log.received| && MakesGood(jobs, log, log.received[i]) && SameElement(jobs[log.received[i].id], job)
  {
    forall i | 0 <= i < |log.received|
      ensures Writes(jobs, log, i, Entry(TagOf(job.kind), job.name, PASS)) || Writes(jobs, log, i, Entry(TagOf(job.kind), job.name, SKIP))
              <==> MakesGood(jobs, log, log.received[i]) && SameElement(jobs[log.received[i].id], job)
    {
      var r := log.received[i];
      assert r.id < |jobs|;
      GoodIff(jobs[r.id], log.own[r.id], r.report);
    }
  }
}
