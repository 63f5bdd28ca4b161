/** The collecting loop of test.py: counters, name lists, the list of failed jobs and the exit code. */
module Tally {
  import opened Sequences
  import opened Sorting
  import opened TestRunner
  import opened Wrappers

  datatype Kind = Suite | Example | PyExample

  datatype JobInfo = JobInfo(kind: Kind, name: string, skipReason: string)

  datatype Verdict = Pass | Fail | Valgr | Crash | Skip | Break

  function VerdictOf(r: Report): Verdict {
    match r
    case Interrupted => Break
    case Skipped => Skip
    case Ran(code) => if code == 0 then Pass else if code == 1 then Fail else if code == 2 then Valgr else Crash
  }

  ghost predicate Known(jobs: seq<JobInfo>, rs: seq<Result>) {
    forall i | 0 <= i < |rs| :: rs[i].id < |jobs|
  }

  // ----- What the loop is to compute -----

  /** The name a job is listed under: skipped jobs carry the reason. */
  function ListedName(jobs: seq<JobInfo>, r: Result): string {
    if r.id >= |jobs| then ""
    else if r.report.Skipped? then jobs[r.id].name + " (" + jobs[r.id].skipReason + ")"
    else jobs[r.id].name
  }

  /** The names of the results with verdict `v`, in the order in which they came. */
  function Names(jobs: seq<JobInfo>, rs: seq<Result>, v: Verdict): seq<string> {
    if rs == [] then []
    else
      Names(jobs, rs[..|rs| - 1], v)
      + (if VerdictOf(rs[|rs| - 1].report) == v then [ListedName(jobs, rs[|rs| - 1])] else [])
  }

  /** How often a result puts its job on the list of failed jobs: once for a return code other than
      zero, and once more for a suite unless it ran to completion and its own file says PASS or SKIP. */
  function FailedEntries(jobs: seq<JobInfo>, fileOk: seq<bool>, r: Result): nat {
    match r.report
    case Ran(code) =>
      (if code != 0 then 1 else 0)
      + (if r.id < |jobs| && jobs[r.id].kind == Suite && !(0 <= code <= 2 && r.id < |fileOk| && fileOk[r.id])
         then 1 else 0)
    case _ => 0
  }

  function Copies(id: nat, n: nat): seq<nat> {
    if n == 0 then [] else Copies(id, n - 1) + [id]
  }

  function FailedJobs(jobs: seq<JobInfo>, fileOk: seq<bool>, rs: seq<Result>): seq<nat> {
    if rs == [] then []
    else
      FailedJobs(jobs, fileOk, rs[..|rs| - 1])
      + Copies(rs[|rs| - 1].id, FailedEntries(jobs, fileOk, rs[|rs| - 1]))
  }

  // ----- The loop -----

  datatype Totals = Totals(
    passed: nat, failed: nat, valgrind: nat, crashed: nat, skipped: nat,
    failedNames: seq<string>, valgrindNames: seq<string>, crashedNames: seq<string>, skippedNames: seq<string>,
    failedJobs: seq<nat>)

  /** `fileOk[id]` says whether the result file written by suite `id` reports PASS or SKIP. */
  method CollectLoop(jobs: seq<JobInfo>, fileOk: seq<bool>, received: seq<Result>) returns (t: Totals)
    requires Known(jobs, received) && |fileOk| == |jobs|
    ensures t.passed == |Names(jobs, received, Pass)|
    ensures t.failed == |Names(jobs, received, Fail)| && t.failedNames == Names(jobs, received, Fail)
    ensures t.valgrind == |Names(jobs, received, Valgr)| && t.valgrindNames == Names(jobs, received, Valgr)
    ensures t.crashed == |Names(jobs, received, Crash)| && t.crashedNames == Names(jobs, received, Crash)
    ensures t.skipped == |Names(jobs, received, Skip)| && t.skippedNames == Names(jobs, received, Skip)
    ensures t.failedJobs == FailedJobs(jobs, fileOk, received)
  {
    var passed, failed, valgrind, crashed, skipped := 0, 0, 0, 0, 0;
    var failedNames, valgrindNames, crashedNames, skippedNames: seq<string> := [], [], [], [];
    var failedJobs := [];
    for i := 0 to |received|
      invariant passed == |Names(jobs, received[..i], Pass)|
      invariant failedNames == Names(jobs, received[..i], Fail) && failed == |failedNames|
      invariant valgrindNames == Names(jobs, received[..i], Valgr) && valgrind == |valgrindNames|
      invariant crashedNames == Names(jobs, received[..i], Crash) && crashed == |crashedNames|
      invariant skippedNames == Names(jobs, received[..i], Skip) && skipped == |skippedNames|
      invariant failedJobs == FailedJobs(jobs, fileOk, received[..i])
    {
      var r, job := received[i], jobs[received[i].id];
      NamesGrow(jobs, received, i, Pass);
      NamesGrow(jobs, received, i, Fail);
      NamesGrow(jobs, received, i, Valgr);
      NamesGrow(jobs, received, i, Crash);
      NamesGrow(jobs, received, i, Skip);
      FailedJobsGrow(jobs, fileOk, received, i);
      match r.report
      case Interrupted =>
      case Skipped =>
        skipped := skipped + 1;
        skippedNames := skippedNames + [job.name + " (" + job.skipReason + ")"];
      case Ran(code) =>
        failedJobs := failedJobs + [r.id];
        if code == 0 {
          passed := passed + 1;
          failedJobs := failedJobs[..|failedJobs| - 1];
        } else if code == 1 {
          failed := failed + 1;
          failedNames := failedNames + [job.name];
        } else if code == 2 {
          valgrind := valgrind + 1;
          valgrindNames := valgrindNames + [job.name];
        } else {
          crashed := crashed + 1;
          crashedNames := crashedNames + [job.name];
        }
        if job.kind == Suite {
          failedJobs := failedJobs + [r.id];
          if (code == 0 || code == 1 || code == 2) && fileOk[r.id] {
            failedJobs := failedJobs[..|failedJobs| - 1];
          }
        }
    }
    assert received[..|received|] == received;
    t := Totals(passed, failed, valgrind, crashed, skipped,
                failedNames, valgrindNames, crashedNames, skippedNames, failedJobs);
  }

  function ExitCode(jobs: seq<JobInfo>, rs: seq<Result>): int {
    if |Names(jobs, rs, Pass)| + |Names(jobs, rs, Skip)| == |jobs| then 0 else 1
  }

  // ----- The tally by return codes -----

  predicate Passed(r: Result) {
    r.report == Ran(0)
  }

  predicate Failed(r: Result) {
    r.report == Ran(1)
  }

  predicate ValgrindFailed(r: Result) {
    r.report == Ran(2)
  }

  predicate Crashed(r: Result) {
    r.report.Ran? && r.report.code != 0 && r.report.code != 1 && r.report.code != 2
  }

  predicate WasSkipped(r: Result) {
    r.report == Skipped
  }

  /** Each result is of one kind, or an interrupted one. */
  lemma KindsByCode(r: Result)
    ensures match r.report
            case Ran(0) => Passed(r)
            case Ran(1) => Failed(r)
            case Ran(2) => ValgrindFailed(r)
            case Ran(_) => Crashed(r)
            case Skipped => WasSkipped(r)
            case Interrupted => !Passed(r) && !Failed(r) && !ValgrindFailed(r) && !Crashed(r) && !WasSkipped(r)
    ensures forall a, b | {a, b} <= {Passed, Failed, ValgrindFailed, Crashed, WasSkipped} && a(r) && b(r) :: a == b
  {}

  /** How many of the first `n` results are of a kind. */
  ghost function HowMany(rs: seq<Result>, kind: Result -> bool, n: nat): nat
    requires n <= |rs|
  {
    if n == 0 then 0 else HowMany(rs, kind, n - 1) + (if kind(rs[n - 1]) then 1 else 0)
  }

  /** How many of them are of jobs with this name. */
  ghost function HowManyNamed(jobs: seq<JobInfo>, rs: seq<Result>, kind: Result -> bool, name: string, n: nat): nat
    requires n <= |rs|
  {
    if n == 0 then 0
    else HowManyNamed(jobs, rs, kind, name, n - 1) + (if kind(rs[n - 1]) && IsNamed(jobs, rs[n - 1], name) then 1 else 0)
  }

  /** The result is listed as `name`: its job's name, and for a skipped one the reason in parentheses. */
  ghost predicate IsNamed(jobs: seq<JobInfo>, r: Result, name: string) {
    r.id < |jobs| && name == if r.report == Skipped then jobs[r.id].name + " (" + jobs[r.id].skipReason + ")" else jobs[r.id].name
  }

  /** How often a list holds a name. */
  function Occurrences(names: seq<string>, name: string): nat {
    multiset(names)[name]
  }

  /** The list is in order and holds the name of each result of the kind, and nothing else. */
  ghost predicate ListsNames(jobs: seq<JobInfo>, rs: seq<Result>, kind: Result -> bool, names: seq<string>) {
    && Sorted(names, StringLeq)
    && forall name :: Occurrences(names, name) == HowManyNamed(jobs, rs, kind, name, |rs|)
  }

  ghost predicate IsVerdict(kind: Result -> bool, v: Verdict) {
    forall r :: kind(r) <==> VerdictOf(r.report) == v
  }

  lemma Verdicts()
    ensures IsVerdict(Passed, Pass) && IsVerdict(Failed, Fail) && IsVerdict(ValgrindFailed, Valgr)
    ensures IsVerdict(Crashed, Crash) && IsVerdict(WasSkipped, Skip)
  {}

  lemma {:induction false} VerdictCount(jobs: seq<JobInfo>, rs: seq<Result>, v: Verdict, kind: Result -> bool, n: nat)
    requires n <= |rs| && IsVerdict(kind, v)
    ensures |Names(jobs, rs[..n], v)| == HowMany(rs, kind, n)
  {
    if n == 0 {
    } else {
      VerdictCount(jobs, rs, v, kind, n - 1);
      NamesGrow(jobs, rs, n - 1, v);
    }
  }

  lemma {:induction false} NameCount(jobs: seq<JobInfo>, rs: seq<Result>, v: Verdict, kind: Result -> bool, name: string, n: nat)
    requires n <= |rs| && IsVerdict(kind, v) && Known(jobs, rs)
    ensures Occurrences(Names(jobs, rs[..n], v), name) == HowManyNamed(jobs, rs, kind, name, n)
  {
    if n == 0 {
    } else {
      NameCount(jobs, rs, v, kind, name, n - 1);
      NamesGrow(jobs, rs, n - 1, v);
      ListedAsNamed(jobs, rs[n - 1], name);
      OneMoreName(Names(jobs, rs[..n - 1], v), ListedName(jobs, rs[n - 1]), name);
    }
  }

  lemma ListedAsNamed(jobs: seq<JobInfo>, r: Result, name: string)
    requires r.id < |jobs|
    ensures ListedName(jobs, r) == name <==> IsNamed(jobs, r, name)
  {}

  lemma OneMoreName(names: seq<string>, last: string, name: string)
    ensures Occurrences(names + [last], name) == Occurrences(names, name) + (if last == name then 1 else 0)
    ensures names + [] == names
  {}

  lemma SortedNames(jobs: seq<JobInfo>, rs: seq<Result>, v: Verdict, kind: Result -> bool)
    requires Known(jobs, rs) && IsVerdict(kind, v)
    ensures ListsNames(jobs, rs, kind, Sort(Names(jobs, rs, v), StringLeq))
    ensures |Names(jobs, rs, v)| == HowMany(rs, kind, |rs|)
  {
    StringOrder();
    SortSorts(Names(jobs, rs, v), StringLeq);
    assert rs[..|rs|] == rs;
    VerdictCount(jobs, rs, v, kind, |rs|);
    forall name
      ensures Occurrences(Sort(Names(jobs, rs, v), StringLeq), name) == HowManyNamed(jobs, rs, kind, name, |rs|)
    {
      NameCount(jobs, rs, v, kind, name, |rs|);
    }
  }

  /** What the counters are, on return codes alone. */
  ghost predicate CountsCodes(rs: seq<Result>, t: Totals) {
    && t.passed == HowMany(rs, Passed, |rs|) && t.failed == HowMany(rs, Failed, |rs|)
    && t.valgrind == HowMany(rs, ValgrindFailed, |rs|) && t.crashed == HowMany(rs, Crashed, |rs|)
    && t.skipped == HowMany(rs, WasSkipped, |rs|)
  }

  /** And the lists. */
  ghost predicate ListsByCodes(jobs: seq<JobInfo>, rs: seq<Result>, t: Totals) {
    && ListsNames(jobs, rs, Failed, t.failedNames) && ListsNames(jobs, rs, ValgrindFailed, t.valgrindNames)
    && ListsNames(jobs, rs, Crashed, t.crashedNames) && ListsNames(jobs, rs, WasSkipped, t.skippedNames)
  }

  /** The loop's totals with their lists sorted: the counters and lists by return codes, and the exit code. */
  method CollectResults(jobs: seq<JobInfo>, fileOk: seq<bool>, received: seq<Result>)
    returns (t: Totals, exitCode: int)
    requires Known(jobs, received) && |fileOk| == |jobs|
    ensures IsSortedTotals(jobs, fileOk, received, t)
    ensures CountsCodes(received, t) && ListsByCodes(jobs, received, t)
    ensures exitCode == ExitCode(jobs, received)
    ensures |received| == |jobs| ==>
      (exitCode == 0 <==> forall i | 0 <= i < |received| :: received[i].report == Skipped || received[i].report == Ran(0))
  {
    t := CollectLoop(jobs, fileOk, received);
    t := t.(failedNames := Sort(t.failedNames, StringLeq), valgrindNames := Sort(t.valgrindNames, StringLeq),
            crashedNames := Sort(t.crashedNames, StringLeq), skippedNames := Sort(t.skippedNames, StringLeq));
    exitCode := if t.passed + t.skipped == |jobs| then 0 else 1;
    Verdicts();
    SortedNames(jobs, received, Pass, Passed);
    SortedNames(jobs, received, Fail, Failed);
    SortedNames(jobs, received, Valgr, ValgrindFailed);
    SortedNames(jobs, received, Crash, Crashed);
    SortedNames(jobs, received, Skip, WasSkipped);
    if |received| == |jobs| {
      ExitZeroIff(jobs, received);
    }
  }

  ghost predicate IsSortedTotals(jobs: seq<JobInfo>, fileOk: seq<bool>, rs: seq<Result>, t: Totals) {
    && t.passed == |Names(jobs, rs, Pass)|
    && t.failed == |Names(jobs, rs, Fail)| && t.failedNames == Sort(Names(jobs, rs, Fail), StringLeq)
    && t.valgrind == |Names(jobs, rs, Valgr)| && t.valgrindNames == Sort(Names(jobs, rs, Valgr), StringLeq)
    && t.crashed == |Names(jobs, rs, Crash)| && t.crashedNames == Sort(Names(jobs, rs, Crash), StringLeq)
    && t.skipped == |Names(jobs, rs, Skip)| && t.skippedNames == Sort(Names(jobs, rs, Skip), StringLeq)
    && t.failedJobs == FailedJobs(jobs, fileOk, rs)
  }

  // ----- One result more -----

  lemma NamesGrow(jobs: seq<JobInfo>, rs: seq<Result>, i: nat, v: Verdict)
    requires i < |rs|
    ensures Names(jobs, rs[..i + 1], v) ==
            Names(jobs, rs[..i], v) + (if VerdictOf(rs[i].report) == v then [ListedName(jobs, rs[i])] else [])
  {
    assert rs[..i + 1][..i] == rs[..i];
  }

  lemma FailedJobsGrow(jobs: seq<JobInfo>, fileOk: seq<bool>, rs: seq<Result>, i: nat)
    requires i < |rs|
    ensures FailedJobs(jobs, fileOk, rs[..i + 1]) ==
            FailedJobs(jobs, fileOk, rs[..i])
            + match FailedEntries(jobs, fileOk, rs[i])
              case 0 => []
              case 1 => [rs[i].id]
              case _ => [rs[i].id, rs[i].id]
  {
    assert rs[..i + 1][..i] == rs[..i];
    assert Copies(rs[i].id, 1) == Copies(rs[i].id, 0) + [rs[i].id];
  }

  // ----- Every result is tallied once -----

  /** Each received result counts under exactly one verdict. */
  lemma {:induction false} VerdictsPartition(jobs: seq<JobInfo>, rs: seq<Result>)
    ensures |Names(jobs, rs, Pass)| + |Names(jobs, rs, Fail)| + |Names(jobs, rs, Valgr)| + |Names(jobs, rs, Crash)|
            + |Names(jobs, rs, Skip)| + |Names(jobs, rs, Break)| == |rs|
  {
    if rs == [] {
    } else {
      VerdictsPartition(jobs, rs[..|rs| - 1]);
    }
  }

  lemma {:induction false} PassedOrSkipped(jobs: seq<JobInfo>, rs: seq<Result>)
    ensures |Names(jobs, rs, Pass)| + |Names(jobs, rs, Skip)| <= |rs|
    ensures |Names(jobs, rs, Pass)| + |Names(jobs, rs, Skip)| == |rs| <==>
            forall i | 0 <= i < |rs| :: VerdictOf(rs[i].report) in {Pass, Skip}
  {
    if rs == [] {
    } else {
      var n := |rs| - 1;
      PassedOrSkipped(jobs, rs[..n]);
      if forall i | 0 <= i < |rs[..n]| :: VerdictOf(rs[..n][i].report) in {Pass, Skip} {
        assert forall i | 0 <= i < n :: rs[i] == rs[..n][i];
      } else {
        var i :| 0 <= i < |rs[..n]| && VerdictOf(rs[..n][i].report) !in {Pass, Skip};
        assert rs[i] == rs[..n][i];
      }
    }
  }

  /** With one result per job, the exit code is zero exactly when every job returned 0 or was skipped. */
  lemma ExitZeroIff(jobs: seq<JobInfo>, rs: seq<Result>)
    requires |rs| == |jobs|
    ensures ExitCode(jobs, rs) == 0 <==> forall i | 0 <= i < |rs| :: rs[i].report == Skipped || rs[i].report == Ran(0)
  {
    PassedOrSkipped(jobs, rs);
    forall r: Result ensures VerdictOf(r.report) in {Pass, Skip} <==> r.report == Skipped || r.report == Ran(0) {}
  }

  // ----- The tally does not depend on the order of completion -----

  lemma {:induction false} NamesConcat(jobs: seq<JobInfo>, rs1: seq<Result>, rs2: seq<Result>, v: Verdict)
    ensures Names(jobs, rs1 + rs2, v) == Names(jobs, rs1, v) + Names(jobs, rs2, v)
  {
    if rs2 == [] {
      assert rs1 + rs2 == rs1;
    } else {
      var n := |rs2| - 1;
      NamesConcat(jobs, rs1, rs2[..n], v);
      assert (rs1 + rs2)[..|rs1| + n] == rs1 + rs2[..n];
    }
  }

  lemma NamesWithout(jobs: seq<JobInfo>, front: seq<Result>, r: Result, back: seq<Result>, v: Verdict)
    ensures multiset(Names(jobs, front + [r] + back, v))
         == multiset(Names(jobs, front + back, v)) + multiset(Names(jobs, [r], v))
  {
    NamesConcat(jobs, front + [r], back, v);
    NamesConcat(jobs, front, [r], v);
    NamesConcat(jobs, front, back, v);
  }

  lemma {:induction false} NamesOfPermutation(jobs: seq<JobInfo>, rs1: seq<Result>, rs2: seq<Result>, v: Verdict)
    requires multiset(rs1) == multiset(rs2)
    ensures multiset(Names(jobs, rs1, v)) == multiset(Names(jobs, rs2, v))
    decreases |rs1|
  {
    if rs1 == [] {
      assert |multiset(rs2)| == 0;
    } else {
      var front, back := TakeOut(rs1, rs2);
      NamesOfPermutation(jobs, rs1[1..], front + back, v);
      NamesWithout(jobs, [], rs1[0], rs1[1..], v);
      NamesWithout(jobs, front, rs1[0], back, v);
      assert [] + [rs1[0]] + rs1[1..] == rs1 && [] + rs1[1..] == rs1[1..];
    }
  }

  /** Two finished, uninterrupted runs of the same jobs, whatever their schedules, end with the same
      counters, the same sorted name lists and the same exit code. */
  lemma SummaryIndependentOfSchedule(c: Config, codes: seq<int>, jobs: seq<JobInfo>,
                                     trace1: seq<Step>, trace2: seq<Step>)
    requires c.workers >= 1 && |codes| == |c.skips|
    requires Exec(c, trace1).Some? && FaithfulRun(c, codes, trace1) && Finished(c, Exec(c, trace1).value)
    requires Exec(c, trace2).Some? && FaithfulRun(c, codes, trace2) && Finished(c, Exec(c, trace2).value)
    ensures var rs1, rs2 := Exec(c, trace1).value.received, Exec(c, trace2).value.received;
      && (forall v :: |Names(jobs, rs1, v)| == |Names(jobs, rs2, v)|)
      && (forall v :: Sort(Names(jobs, rs1, v), StringLeq) == Sort(Names(jobs, rs2, v), StringLeq))
      && ExitCode(jobs, rs1) == ExitCode(jobs, rs2)
  {
    var rs1, rs2 := Exec(c, trace1).value.received, Exec(c, trace2).value.received;
    ResultsIndependentOfSchedule(c, codes, trace1, trace2);
    forall v
      ensures |Names(jobs, rs1, v)| == |Names(jobs, rs2, v)| && Sort(Names(jobs, rs1, v), StringLeq) == Sort(Names(jobs, rs2, v), StringLeq)
    {
      NamesOfPermutation(jobs, rs1, rs2, v);
      assert |multiset(Names(jobs, rs1, v))| == |multiset(Names(jobs, rs2, v))|;
      StringOrder();
      SortOfPermutation(Names(jobs, rs1, v), Names(jobs, rs2, v), StringLeq);
    }
  }

  // ----- How often a job is on the list of failed jobs -----

  /** The entries of the results of one job, together. */
  function EntriesOf(jobs: seq<JobInfo>, fileOk: seq<bool>, rs: seq<Result>, id: nat): nat {
    if rs == [] then 0
    else
      EntriesOf(jobs, fileOk, rs[..|rs| - 1], id)
      + (if rs[|rs| - 1].id == id then FailedEntries(jobs, fileOk, rs[|rs| - 1]) else 0)
  }

  /** How often the job is on the list. */
  function Times(failed: seq<nat>, id: nat): nat {
    multiset(failed)[id]
  }

  lemma {:induction false} CopiesCount(id: nat, n: nat, x: nat)
    ensures Times(Copies(id, n), x) == if x == id then n else 0
  {
    if n == 0 {
    } else {
      CopiesCount(id, n - 1, x);
    }
  }

  /** The list holds a job as often as its results put it there. */
  lemma {:induction false} FailedJobsCount(jobs: seq<JobInfo>, fileOk: seq<bool>, rs: seq<Result>, id: nat)
    ensures Times(FailedJobs(jobs, fileOk, rs), id) == EntriesOf(jobs, fileOk, rs, id)
  {
    if rs == [] {
    } else {
      var r := rs[|rs| - 1];
      FailedJobsCount(jobs, fileOk, rs[..|rs| - 1], id);
      CopiesCount(r.id, FailedEntries(jobs, fileOk, r), id);
    }
  }

  ghost predicate OncePerJob(rs: seq<Result>) {
    forall i, j | 0 <= i < j < |rs| :: rs[i].id != rs[j].id
  }

  /** With one result per job, only that result counts. */
  lemma {:induction false} EntriesOfOne(jobs: seq<JobInfo>, fileOk: seq<bool>, rs: seq<Result>, i: nat)
    requires OncePerJob(rs) && i < |rs|
    ensures EntriesOf(jobs, fileOk, rs, rs[i].id) == FailedEntries(jobs, fileOk, rs[i])
  {
    var n := |rs| - 1;
    if i == n {
      EntriesOfNone(jobs, fileOk, rs[..n], rs[n].id);
    } else {
      EntriesOfOne(jobs, fileOk, rs[..n], i);
    }
  }

  lemma {:induction false} EntriesOfNone(jobs: seq<JobInfo>, fileOk: seq<bool>, rs: seq<Result>, id: nat)
    requires forall i | 0 <= i < |rs| :: rs[i].id != id
    ensures EntriesOf(jobs, fileOk, rs, id) == 0
  {
    if rs == [] {
    } else {
      EntriesOfNone(jobs, fileOk, rs[..|rs| - 1], id);
    }
  }

  /** A suite that ran and failed, unless it ran to completion and its own file says PASS or SKIP all the same. */
  predicate ListedTwice(jobs: seq<JobInfo>, fileOk: seq<bool>, r: Result) {
    && r.report.Ran? && r.report.code != 0
    && r.id < |jobs| && jobs[r.id].kind == Suite
    && !(0 <= r.report.code <= 2 && r.id < |fileOk| && fileOk[r.id])
  }

  lemma DistinctIffTimes(failed: seq<nat>)
    ensures Distinct(failed) <==> forall id: nat :: Times(failed, id) <= 1
  {
    DistinctIffOnce(failed);
    if forall id: nat :: Times(failed, id) <= 1 {
      forall x ensures multiset(failed)[x] <= 1 { assert Times(failed, x) <= 1; }
    }
    if forall x :: multiset(failed)[x] <= 1 {
      forall id: nat ensures Times(failed, id) <= 1 { assert multiset(failed)[id] <= 1; }
    }
  }

  lemma TwoEntriesIff(jobs: seq<JobInfo>, fileOk: seq<bool>, r: Result)
    ensures FailedEntries(jobs, fileOk, r) == 2 <==> ListedTwice(jobs, fileOk, r)
    ensures FailedEntries(jobs, fileOk, r) <= 2
  {}

  /** With one result per job, a job is on the list as often as its result puts it there. */
  lemma TimesListed(jobs: seq<JobInfo>, fileOk: seq<bool>, rs: seq<Result>, id: nat)
    requires OncePerJob(rs)
    ensures forall i | 0 <= i < |rs| && rs[i].id == id ::
      Times(FailedJobs(jobs, fileOk, rs), id) == FailedEntries(jobs, fileOk, rs[i])
    ensures (forall i | 0 <= i < |rs| :: rs[i].id != id) ==> Times(FailedJobs(jobs, fileOk, rs), id) == 0
  {
    FailedJobsCount(jobs, fileOk, rs, id);
    if i :| 0 <= i < |rs| && rs[i].id == id {
      EntriesOfOne(jobs, fileOk, rs, i);
    } else {
      EntriesOfNone(jobs, fileOk, rs, id);
    }
  }

  /** With one result per job, a job is on the list exactly if it ran and returned another code than 0, or is a suite that
      ran and did not both run to completion and report PASS or SKIP in its own file. */
  lemma ListedIff(jobs: seq<JobInfo>, fileOk: seq<bool>, rs: seq<Result>, i: nat)
    requires OncePerJob(rs) && Known(jobs, rs) && |fileOk| == |jobs| && i < |rs|
    ensures rs[i].id in FailedJobs(jobs, fileOk, rs) <==>
            && rs[i].report.Ran?
            && (|| rs[i].report.code != 0
                || (jobs[rs[i].id].kind == Suite && !(rs[i].report.code in {0, 1, 2} && fileOk[rs[i].id])))
  {
    TimesListed(jobs, fileOk, rs, rs[i].id);
    assert rs[i].id in multiset(FailedJobs(jobs, fileOk, rs)) <==> Times(FailedJobs(jobs, fileOk, rs), rs[i].id) > 0;
  }

  /** With one result per job, the list of failed jobs has a job twice exactly if the result of some suite is of that
      kind. */
  lemma FailedJobsDistinctIff(jobs: seq<JobInfo>, fileOk: seq<bool>, rs: seq<Result>)
    requires OncePerJob(rs)
    ensures Distinct(FailedJobs(jobs, fileOk, rs)) <==> forall i | 0 <= i < |rs| :: !ListedTwice(jobs, fileOk, rs[i])
  {
    var failed := FailedJobs(jobs, fileOk, rs);
    DistinctIffTimes(failed);
    if i :| 0 <= i < |rs| && ListedTwice(jobs, fileOk, rs[i]) {
      TimesListed(jobs, fileOk, rs, rs[i].id);
      TwoEntriesIff(jobs, fileOk, rs[i]);
      assert Times(failed, rs[i].id) == 2;
    } else {
      forall id: nat ensures Times(failed, id) <= 1 {
        TimesListed(jobs, fileOk, rs, id);
        if i :| 0 <= i < |rs| && rs[i].id == id {
          TwoEntriesIff(jobs, fileOk, rs[i]);
        }
      }
    }
  }

  /** So it is for the parallel runner: the list of a finished run has a job twice exactly if some suite came back failed
      and its own file does not say otherwise. */
  lemma FinishedRunListsTwiceIff(c: Config, trace: seq<Step>, jobs: seq<JobInfo>, fileOk: seq<bool>)
    requires c.workers >= 1 && Exec(c, trace).Some? && Finished(c, Exec(c, trace).value)
    ensures var rs := Exec(c, trace).value.received;
      Distinct(FailedJobs(jobs, fileOk, rs)) <==> forall i | 0 <= i < |rs| :: !ListedTwice(jobs, fileOk, rs[i])
  {
    var s := Exec(c, trace).value;
    RunsKeepInv(c, trace);
    FinishedMeansAllReceived(c, s);
    AtMostOnce(s.received);
    FailedJobsDistinctIff(jobs, fileOk, s.received);
  }

  lemma {:induction false} OccursOnce(rs: seq<Result>, i: nat, id: nat)
    requires i < |rs| && rs[i].id == id
    ensures InResults(id, rs) >= 1
  {
    if i == |rs| - 1 {
    } else {
      OccursOnce(rs[..|rs| - 1], i, id);
    }
  }

  lemma {:induction false} AtMostOnce(rs: seq<Result>)
    requires forall id: nat :: InResults(id, rs) <= 1
    ensures OncePerJob(rs)
  {
    if rs == [] {
    } else {
      var n := |rs| - 1;
      forall id: nat ensures InResults(id, rs[..n]) <= 1 {
        assert InResults(id, rs) <= 1;
      }
      AtMostOnce(rs[..n]);
      assert InResults(rs[n].id, rs) <= 1;
      forall i | 0 <= i < n ensures rs[i].id != rs[n].id {
        if rs[i].id == rs[n].id {
          OccursOnce(rs[..n], i, rs[n].id);
        }
      }
    }
  }

  /** For example a suite that fails and says so in its own file, and one that crashes whatever its file says. */
  lemma FailedSuiteListedTwice(jobs: seq<JobInfo>, fileOk: seq<bool>, id: nat, code: int)
    requires id < |jobs| == |fileOk| && jobs[id].kind == Suite && code != 0 && (fileOk[id] ==> !(0 <= code <= 2))
    ensures FailedJobs(jobs, fileOk, [Result(id, Ran(code))]) == [id, id]
  {
    var rs := [Result(id, Ran(code))];
    FailedJobsGrow(jobs, fileOk, rs, 0);
    assert rs[..0] == [] && rs[..1] == rs;
  }
}
