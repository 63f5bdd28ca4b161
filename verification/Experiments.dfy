/** From a suite configuration to the bars: `SuiteConfig.get_all_experiments` and `Suite.get_params` in
    pylib/configuration.py, `run_once` and `collect_throughput_dack` in pylib/suite.py.

    The main result says exactly when `comparison_bars` finds every (case, group) pair it looks up.
  */
module Experiments {
  import opened Bars
  import opened Sequences
  import opened Sorting
  import opened Wrappers

  datatype Case = AAD | ADW | DEFAULT

  /** The columns of `get_params`. */
  datatype Column =
    | TcpVariant | SimulationTime | TcpNodes | TargetDataRate | UdpNodes | Mobility | Tx | Distance | Uplink | FortyHz
    | Beta | Kase

  datatype Value = Text(text: string) | Number(number: int) | Flag(flag: bool) | OfCase(kase: Case) | Ratio(ratio: real)

  datatype Suite = Suite(fields: map<Column, Value>, rngRuns: int)

  datatype SuiteConfig = SuiteConfig(name: string, lists: map<Column, seq<Value>>, rngRuns: int)

  const DEFAULT_BETA := Number(300)

  const BETA_RANK := 10

  /** The position of a column among the list fields of `SuiteConfig`, in the order of their declaration. */
  function Rank(c: Column): nat {
    match c
    case TcpVariant => 0
    case SimulationTime => 1
    case TcpNodes => 2
    case TargetDataRate => 3
    case UdpNodes => 4
    case Mobility => 5
    case Tx => 6
    case Distance => 7
    case Uplink => 8
    case FortyHz => 9
    case Beta => BETA_RANK
    case Kase => 11
  }

  function Field(i: nat): (c: Column)
    ensures i <= BETA_RANK ==> Rank(c) == i
  {
    match i
    case 0 => TcpVariant
    case 1 => SimulationTime
    case 2 => TcpNodes
    case 3 => TargetDataRate
    case 4 => UdpNodes
    case 5 => Mobility
    case 6 => Tx
    case 7 => Distance
    case 8 => Uplink
    case 9 => FortyHz
    case 10 => Beta
    case _ => Kase
  }

  predicate HasType(c: Column, v: Value) {
    match c
    case TcpVariant => v.Text?
    case Mobility | Uplink | FortyHz => v.Flag?
    case Kase => v.OfCase?
    case _ => v.Number?
  }

  /** What the model class has validated: every list field is there and holds values of its type. */
  ghost predicate Validated(config: SuiteConfig) {
    && (forall c: Column :: c in config.lists <==> c != Kase)
    && (forall c, v | c in config.lists && v in config.lists[c] :: HasType(c, v))
  }

  // ----- The Cartesian product -----

  /** `{**p, column: v}` for each of the first `n` values. */
  function Extend(p: map<Column, Value>, column: Column, values: seq<Value>, n: nat): seq<map<Column, Value>>
    requires n <= |values|
  {
    if n == 0 then [] else Extend(p, column, values, n - 1) + [p[column := values[n - 1]]]
  }

  function Spread(ps: seq<map<Column, Value>>, column: Column, values: seq<Value>, n: nat): seq<map<Column, Value>>
    requires n <= |ps|
  {
    if n == 0 then [] else Spread(ps, column, values, n - 1) + Extend(ps[n - 1], column, values, |values|)
  }

  /** The choices of one value from each of the first `n` lists, the last list varying fastest. */
  function Product(config: SuiteConfig, kase: Case, n: nat): seq<map<Column, Value>>
    requires Validated(config) && n <= BETA_RANK + 1
  {
    if n == 0 then [map[Kase := OfCase(kase)]]
    else
      var shorter := Product(config, kase, n - 1);
      Spread(shorter, Field(n - 1), config.lists[Field(n - 1)], |shorter|)
  }

  /** How many of the list fields are used: `beta` is the last, and is excluded for all but AAD. */
  function Fields(kase: Case): nat {
    if kase == AAD then BETA_RANK + 1 else BETA_RANK
  }

  /** A suite without a `beta` gets the default. */
  function Built(m: map<Column, Value>, rngRuns: int): Suite {
    Suite(if Beta in m then m else m[Beta := DEFAULT_BETA], rngRuns)
  }

  function AllBuilt(ms: seq<map<Column, Value>>, rngRuns: int, n: nat): seq<Suite>
    requires n <= |ms|
  {
    if n == 0 then [] else AllBuilt(ms, rngRuns, n - 1) + [Built(ms[n - 1], rngRuns)]
  }

  function GetAllExperiments(config: SuiteConfig, kase: Case): seq<Suite>
    requires Validated(config)
  {
    var ms := Product(config, kase, Fields(kase));
    AllBuilt(ms, config.rngRuns, |ms|)
  }

  /** What the comprehension is for: one suite for each choice of a value for each field. */
  ghost predicate IsExperiment(config: SuiteConfig, kase: Case, s: Suite)
    requires Validated(config)
  {
    && s.rngRuns == config.rngRuns
    && (forall c: Column :: c in s.fields)
    && s.fields[Kase] == OfCase(kase)
    && (forall c | c in config.lists && c != Beta :: s.fields[c] in config.lists[c])
    && (if kase == AAD then s.fields[Beta] in config.lists[Beta] else s.fields[Beta] == DEFAULT_BETA)
  }

  ghost predicate Extends(p: map<Column, Value>, column: Column, values: seq<Value>, n: nat, m: map<Column, Value>)
    requires n <= |values|
  {
    exists j :: 0 <= j < n && m == p[column := values[j]]
  }

  lemma {:induction false} ExtendExact(p: map<Column, Value>, column: Column, values: seq<Value>, n: nat, m: map<Column, Value>)
    requires n <= |values|
    ensures m in Extend(p, column, values, n) <==> Extends(p, column, values, n, m)
  {
    if n == 0 {
    } else {
      ExtendExact(p, column, values, n - 1, m);
    }
  }

  lemma {:induction false} SpreadExact(ps: seq<map<Column, Value>>, column: Column, values: seq<Value>, n: nat, m: map<Column, Value>)
    requires n <= |ps|
    ensures m in Spread(ps, column, values, n) <==> exists i :: 0 <= i < n && Extends(ps[i], column, values, |values|, m)
  {
    if n == 0 {
    } else {
      SpreadExact(ps, column, values, n - 1, m);
      ExtendExact(ps[n - 1], column, values, |values|, m);
      assert m in Spread(ps, column, values, n)
        <==> m in Spread(ps, column, values, n - 1) || m in Extend(ps[n - 1], column, values, |values|);
    }
  }

  lemma {:induction false} ExtendAt(p: map<Column, Value>, column: Column, values: seq<Value>, n: nat, j: nat)
    requires n <= |values|
    ensures |Extend(p, column, values, n)| == n
    ensures j < n ==> Extend(p, column, values, n)[j] == p[column := values[j]]
  {
    if n == 0 {
    } else {
      ExtendAt(p, column, values, n - 1, j);
    }
  }

  lemma {:induction false} SpreadAt(ps: seq<map<Column, Value>>, column: Column, values: seq<Value>, n: nat, i: nat, j: nat)
    requires n <= |ps|
    ensures |Spread(ps, column, values, n)| == n * |values|
    ensures i < n && j < |values| ==>
      i * |values| + j < n * |values| && Spread(ps, column, values, n)[i * |values| + j] == ps[i][column := values[j]]
  {
    if n == 0 {
    } else {
      SpreadAt(ps, column, values, n - 1, i, j);
      ExtendAt(ps[n - 1], column, values, |values|, j);
      assert n * |values| == (n - 1) * |values| + |values|;
    }
  }

  /** The choices are enumerated as an odometer counts: each shorter choice is followed by all values of the next list
      in turn, so none is left out and their number is the product of the lengths. */
  lemma ProductOrder(config: SuiteConfig, kase: Case, n: nat, i: nat, j: nat)
    requires Validated(config) && n <= BETA_RANK
    ensures var shorter, values := Product(config, kase, n), config.lists[Field(n)];
      && |Product(config, kase, n + 1)| == |shorter| * |values|
      && (i < |shorter| && j < |values| ==>
            && i * |values| + j < |shorter| * |values|
            && Product(config, kase, n + 1)[i * |values| + j] == shorter[i][Field(n) := values[j]])
  {
    var shorter := Product(config, kase, n);
    SpreadAt(shorter, Field(n), config.lists[Field(n)], |shorter|, i, j);
  }

  ghost predicate Chosen(config: SuiteConfig, kase: Case, n: nat, m: map<Column, Value>)
    requires Validated(config)
  {
    && (forall c: Column :: c in m <==> c == Kase || Rank(c) < n)
    && m[Kase] == OfCase(kase)
    && (forall c | c in m && c != Kase :: m[c] in config.lists[c])
  }

  lemma ChosenExtended(config: SuiteConfig, kase: Case, n: nat, p: map<Column, Value>, m: map<Column, Value>)
    requires Validated(config) && n <= BETA_RANK && Chosen(config, kase, n, p)
    requires Extends(p, Field(n), config.lists[Field(n)], |config.lists[Field(n)]|, m)
    ensures Chosen(config, kase, n + 1, m)
  {
    forall c: Column ensures c in m <==> c == Kase || Rank(c) < n + 1 {
      OnlyField(c, n);
    }
  }

  lemma OnlyField(c: Column, n: nat)
    requires n <= BETA_RANK
    ensures Rank(c) == n <==> c == Field(n)
  {}

  lemma ChosenShrunk(config: SuiteConfig, kase: Case, n: nat, m: map<Column, Value>) returns (p: map<Column, Value>)
    requires Validated(config) && n <= BETA_RANK && Chosen(config, kase, n + 1, m)
    ensures Chosen(config, kase, n, p)
    ensures Extends(p, Field(n), config.lists[Field(n)], |config.lists[Field(n)]|, m)
  {
    p := m - {Field(n)};
    forall c: Column ensures c in p <==> c == Kase || Rank(c) < n {
      OnlyField(c, n);
    }
    var values := config.lists[Field(n)];
    var j :| 0 <= j < |values| && values[j] == m[Field(n)];
    assert m == p[Field(n) := values[j]];
  }

  lemma {:induction false} ProductExact(config: SuiteConfig, kase: Case, n: nat, m: map<Column, Value>)
    requires Validated(config) && n <= BETA_RANK + 1
    ensures m in Product(config, kase, n) <==> Chosen(config, kase, n, m)
  {
    if n == 0 {
      NoneChosen(config, kase, m);
    } else {
      var column := Field(n - 1);
      var shorter := Product(config, kase, n - 1);
      SpreadExact(shorter, column, config.lists[column], |shorter|, m);
      if m in Product(config, kase, n) {
        var i :| 0 <= i < |shorter| && Extends(shorter[i], column, config.lists[column], |config.lists[column]|, m);
        ProductExact(config, kase, n - 1, shorter[i]);
        ChosenExtended(config, kase, n - 1, shorter[i], m);
      }
      if Chosen(config, kase, n, m) {
        var p := ChosenShrunk(config, kase, n - 1, m);
        ProductExact(config, kase, n - 1, p);
      }
    }
  }

  lemma NoneChosen(config: SuiteConfig, kase: Case, m: map<Column, Value>)
    requires Validated(config)
    ensures Chosen(config, kase, 0, m) <==> m == map[Kase := OfCase(kase)]
  {
    if Chosen(config, kase, 0, m) {
      assert m.Keys == {Kase};
    }
  }

  lemma {:induction false} AllBuiltExact(ms: seq<map<Column, Value>>, rngRuns: int, n: nat, s: Suite)
    requires n <= |ms|
    ensures s in AllBuilt(ms, rngRuns, n) <==> exists i :: 0 <= i < n && s == Built(ms[i], rngRuns)
  {
    if n == 0 {
    } else {
      AllBuiltExact(ms, rngRuns, n - 1, s);
    }
  }

  lemma BuiltIsExperiment(config: SuiteConfig, kase: Case, m: map<Column, Value>)
    requires Validated(config) && Chosen(config, kase, Fields(kase), m)
    ensures IsExperiment(config, kase, Built(m, config.rngRuns))
  {}

  lemma ExperimentIsBuilt(config: SuiteConfig, kase: Case, s: Suite) returns (m: map<Column, Value>)
    requires Validated(config) && IsExperiment(config, kase, s)
    ensures Chosen(config, kase, Fields(kase), m) && s == Built(m, config.rngRuns)
  {
    if kase == AAD {
      m := s.fields;
    } else {
      m := s.fields - {Beta};
      assert s.fields == m[Beta := DEFAULT_BETA];
    }
  }

  /** Only AAD varies `beta`. */
  lemma BetaOfExperiments(config: SuiteConfig, kase: Case, s: Suite)
    requires Validated(config) && s in GetAllExperiments(config, kase)
    ensures forall c: Column :: c in s.fields
    ensures s.fields[Kase] == OfCase(kase)
    ensures if kase == AAD then s.fields[Beta] in config.lists[Beta] else s.fields[Beta] == Number(300)
  {
    ExperimentsExact(config, kase, s);
  }

  lemma ExperimentsExact(config: SuiteConfig, kase: Case, s: Suite)
    requires Validated(config)
    ensures s in GetAllExperiments(config, kase) <==> IsExperiment(config, kase, s)
  {
    var ms := Product(config, kase, Fields(kase));
    AllBuiltExact(ms, config.rngRuns, |ms|, s);
    if s in GetAllExperiments(config, kase) {
      var i :| 0 <= i < |ms| && s == Built(ms[i], config.rngRuns);
      ProductExact(config, kase, Fields(kase), ms[i]);
      BuiltIsExperiment(config, kase, ms[i]);
    }
    if IsExperiment(config, kase, s) {
      var m := ExperimentIsBuilt(config, kase, s);
      ProductExact(config, kase, Fields(kase), m);
    }
  }

  // ----- The keys of a suite -----

  /** `get_params`: the columns as they are, but `beta` divided by 100. */
  function Param(s: Suite, c: Column): Value
    requires c in s.fields
  {
    if c == Beta && s.fields[c].Number? then Ratio(s.fields[c].number as real / 100.0) else s.fields[c]
  }

  function Key(s: Suite, columns: seq<Column>, n: nat): (key: seq<Value>)
    requires n <= |columns| && forall c: Column :: c in s.fields
    ensures |key| == n
  {
    if n == 0 then [] else Key(s, columns, n - 1) + [Param(s, columns[n - 1])]
  }

  /** The suite has every column, with values of their types. */
  ghost predicate Typed(s: Suite) {
    forall c: Column :: c in s.fields && HasType(c, s.fields[c])
  }

  ghost predicate Agree(s: Suite, t: Suite, columns: seq<Column>)
    requires Typed(s) && Typed(t)
  {
    forall c | c in columns :: s.fields[c] == t.fields[c]
  }

  ghost predicate AgreeUpTo(s: Suite, t: Suite, columns: seq<Column>, n: nat)
    requires Typed(s) && Typed(t) && n <= |columns|
  {
    forall i | 0 <= i < n :: s.fields[columns[i]] == t.fields[columns[i]]
  }

  lemma ParamInjective(s: Suite, t: Suite, c: Column)
    requires Typed(s) && Typed(t)
    ensures Param(s, c) == Param(t, c) <==> s.fields[c] == t.fields[c]
  {}

  lemma {:induction false} KeyUpTo(s: Suite, t: Suite, columns: seq<Column>, n: nat)
    requires Typed(s) && Typed(t) && n <= |columns|
    ensures Key(s, columns, n) == Key(t, columns, n) <==> AgreeUpTo(s, t, columns, n)
  {
    if n == 0 {
    } else {
      KeyUpTo(s, t, columns, n - 1);
      ParamInjective(s, t, columns[n - 1]);
      AppendInjective(Key(s, columns, n - 1), Param(s, columns[n - 1]), Key(t, columns, n - 1), Param(t, columns[n - 1]));
    }
  }

  lemma AppendInjective<T>(a: seq<T>, x: T, b: seq<T>, y: T)
    requires |a| == |b|
    ensures a + [x] == b + [y] <==> a == b && x == y
  {
    if a + [x] == b + [y] {
      assert (a + [x])[..|a|] == a && (b + [y])[..|b|] == b;
      assert (a + [x])[|a|] == (b + [y])[|b|];
    }
  }

  lemma KeysEqualIff(s: Suite, t: Suite, columns: seq<Column>)
    requires Typed(s) && Typed(t)
    ensures Key(s, columns, |columns|) == Key(t, columns, |columns|) <==> Agree(s, t, columns)
  {
    KeyUpTo(s, t, columns, |columns|);
  }

  /** A key holds the values of its columns in order, `beta` as a hundredth of what the suite has. */
  lemma {:induction false} KeyHolds(s: Suite, columns: seq<Column>, n: nat, i: nat)
    requires Typed(s) && i < n <= |columns|
    ensures Key(s, columns, n)[i] ==
            if columns[i] == Beta then Ratio(s.fields[Beta].number as real / 100.0) else s.fields[columns[i]]
  {
    if i == n - 1 {
    } else {
      KeyHolds(s, columns, n - 1, i);
    }
  }

  // ----- The order of keys -----

  function CaseName(kase: Case): string {
    match kase
    case AAD => "AAD"
    case ADW => "ADW"
    case DEFAULT => "default"
  }

  /** Which kind of value; values of one column are of one kind. */
  function KindOf(v: Value): nat {
    match v
    case Text(_) => 0
    case Number(_) => 1
    case Flag(_) => 2
    case OfCase(_) => 3
    case Ratio(_) => 4
  }

  /** Strings, numbers and truth values in Python's order, cases by their value. */
  predicate ValueLeq(a: Value, b: Value) {
    match (a, b)
    case (Text(s), Text(t)) => StringLeq(s, t)
    case (Number(m), Number(n)) => m <= n
    case (Flag(p), Flag(q)) => p ==> q
    case (OfCase(c), OfCase(d)) => StringLeq(CaseName(c), CaseName(d))
    case (Ratio(x), Ratio(y)) => x <= y
    case _ => KindOf(a) < KindOf(b)
  }

  predicate KeyLeq(a: seq<Value>, b: seq<Value>) {
    Lexicographic(a, b, ValueLeq)
  }

  lemma CaseNamesDiffer(c: Case, d: Case)
    ensures CaseName(c) == CaseName(d) ==> c == d
  {
    assert CaseName(AAD)[1] == 'A' && CaseName(ADW)[1] == 'D' && CaseName(DEFAULT)[1] == 'e';
  }

  lemma ValueOrder()
    ensures TotalOrder(ValueLeq)
  {
    StringOrder();
    forall a, b ensures ValueLeq(a, b) || ValueLeq(b, a) {}
    forall a, b | ValueLeq(a, b) && ValueLeq(b, a) ensures a == b {
      if a.OfCase? && b.OfCase? { CaseNamesDiffer(a.kase, b.kase); }
    }
    forall a, b, c | ValueLeq(a, b) && ValueLeq(b, c) ensures ValueLeq(a, c) {}
  }

  lemma KeyOrder()
    ensures TotalOrder(KeyLeq)
  {
    ValueOrder();
    forall a, b ensures KeyLeq(a, b) || KeyLeq(b, a) { LexicographicTotal(a, b, ValueLeq); }
    forall a, b | KeyLeq(a, b) && KeyLeq(b, a) ensures a == b { LexicographicTotal(a, b, ValueLeq); }
    forall a, b, c | KeyLeq(a, b) && KeyLeq(b, c) ensures KeyLeq(a, c) { LexicographicTransitive(a, b, c, ValueLeq); }
  }

  // ----- When every lookup is defined -----

  ghost predicate Collected(config: SuiteConfig, cases: seq<Case>, s: Suite)
    requires Validated(config)
  {
    exists kase :: kase in cases && IsExperiment(config, kase, s)
  }

  /** Some suite has the group of `s` and the case of `t`. */
  ghost predicate Combined(config: SuiteConfig, cases: seq<Case>, groupBy: seq<Column>, caseColumns: seq<Column>, s: Suite, t: Suite)
    requires Validated(config) && Typed(s) && Typed(t)
  {
    exists u :: Typed(u) && Collected(config, cases, u) && Agree(u, s, groupBy) && Agree(u, t, caseColumns)
  }

  /** `beta` and `case` stand on different sides of the plot. */
  predicate Split(groupBy: seq<Column>, caseColumns: seq<Column>) {
    (Beta in groupBy && Kase in caseColumns) || (Kase in groupBy && Beta in caseColumns)
  }

  /** The listed cases cannot differ in their choices of `beta`: AAD is not listed, is listed alone, or offers
      nothing but the default. */
  ghost predicate OneBeta(config: SuiteConfig, cases: seq<Case>)
    requires Validated(config)
  {
    AAD !in cases || (forall kase | kase in cases :: kase == AAD) || (forall b | b in config.lists[Beta] :: b == DEFAULT_BETA)
  }

  ghost predicate Disjoint(groupBy: seq<Column>, caseColumns: seq<Column>) {
    forall c | c in groupBy :: c !in caseColumns
  }

  lemma ExperimentTyped(config: SuiteConfig, kase: Case, s: Suite)
    requires Validated(config) && IsExperiment(config, kase, s)
    ensures Typed(s)
  {
    forall c: Column ensures c in s.fields && HasType(c, s.fields[c]) {
      assert c == Kase || c == Beta || s.fields[c] in config.lists[c];
    }
  }

  /** The plain columns of the group from `s`, the other plain columns from `t`. */
  ghost predicate Mixes(u: Suite, s: Suite, t: Suite, groupBy: seq<Column>)
    requires Typed(u) && Typed(s) && Typed(t)
  {
    forall c: Column | c != Beta && c != Kase :: u.fields[c] == if c in groupBy then s.fields[c] else t.fields[c]
  }

  lemma Mix(config: SuiteConfig, groupBy: seq<Column>, k1: Case, s: Suite, k2: Case, t: Suite, k: Case, beta: Value)
      returns (u: Suite)
    requires Validated(config) && IsExperiment(config, k1, s) && IsExperiment(config, k2, t)
    requires if k == AAD then beta in config.lists[Beta] else beta == DEFAULT_BETA
    ensures IsExperiment(config, k, u) && Typed(u) && Typed(s) && Typed(t) && Mixes(u, s, t, groupBy)
    ensures u.fields[Beta] == beta && u.fields[Kase] == OfCase(k)
  {
    ExperimentTyped(config, k1, s);
    ExperimentTyped(config, k2, t);
    var fields := map c: Column | c in s.fields ::
      if c == Beta then beta else if c == Kase then OfCase(k) else if c in groupBy then s.fields[c] else t.fields[c];
    u := Suite(fields, config.rngRuns);
    ExperimentTyped(config, k, u);
  }

  /** Unless the two columns are split, or if they do not matter, every combination is there. */
  lemma CombinedIfTogether(config: SuiteConfig, cases: seq<Case>, groupBy: seq<Column>, caseColumns: seq<Column>,
                           k1: Case, s: Suite, k2: Case, t: Suite)
    requires Validated(config) && Disjoint(groupBy, caseColumns)
    requires !Split(groupBy, caseColumns) || OneBeta(config, cases)
    requires k1 in cases && IsExperiment(config, k1, s) && k2 in cases && IsExperiment(config, k2, t)
    requires Typed(s) && Typed(t)
    ensures Combined(config, cases, groupBy, caseColumns, s, t)
  {
    var k := if Kase in groupBy || (Beta in groupBy && Kase !in caseColumns) then k1 else k2;
    var beta := if Beta in groupBy || (Kase in groupBy && Beta !in caseColumns) then s.fields[Beta] else t.fields[Beta];
    var u := Mix(config, groupBy, k1, s, k2, t, k, beta);
    assert Agree(u, s, groupBy);
    assert Agree(u, t, caseColumns);
    assert Collected(config, cases, u);
  }

  /** If they are split and the cases differ in their choices, a suite of AAD and one of another case do not combine. */
  lemma NotCombinedIfSplit(config: SuiteConfig, cases: seq<Case>, groupBy: seq<Column>, caseColumns: seq<Column>,
                           s0: Suite)
      returns (s: Suite, t: Suite)
    requires Validated(config)
    requires Split(groupBy, caseColumns) && !OneBeta(config, cases)
    requires Collected(config, cases, s0)
    ensures Collected(config, cases, s) && Collected(config, cases, t) && Typed(s) && Typed(t)
    ensures !Combined(config, cases, groupBy, caseColumns, s, t)
  {
    var k0 :| k0 in cases && IsExperiment(config, k0, s0);
    var k :| k in cases && k != AAD;
    var beta :| beta in config.lists[Beta] && beta != DEFAULT_BETA;
    s := Mix(config, groupBy, k0, s0, k0, s0, AAD, beta);
    t := Mix(config, groupBy, k0, s0, k0, s0, k, DEFAULT_BETA);
    if Kase in groupBy && Beta in caseColumns {
      s, t := t, s;
    }
  }

  // ----- Collecting the throughputs -----

  /** What the result file of a suite and a seed holds, if it is there. */
  type Measure = (Suite, int) -> Option<real>

  /** How many of the seeds 1 to `n` have a result. */
  function Succeeded(measure: Measure, s: Suite, n: nat): (k: nat)
  {
    if n == 0 then 0 else Succeeded(measure, s, n - 1) + (if measure(s, n).Some? then 1 else 0)
  }

  function SumOf(measure: Measure, s: Suite, n: nat): real {
    if n == 0 then 0.0 else SumOf(measure, s, n - 1) + (if measure(s, n).Some? then measure(s, n).value else 0.0)
  }

  /** The number of nodes times the mean of the results there are, or 0 without any. */
  function Throughput(measure: Measure, s: Suite): real
    requires Typed(s)
  {
    var n := if s.rngRuns < 0 then 0 else s.rngRuns;
    if Succeeded(measure, s, n) == 0 then 0.0
    else s.fields[TcpNodes].number as real * (SumOf(measure, s, n) / Succeeded(measure, s, n) as real)
  }

  /** The source subtracts the missing results from `rng_runs`, and leaves out zeros with the missing results. */
  method RunOnce(measure: Measure, s: Suite) returns (throughput: real)
    requires Typed(s)
    ensures throughput == Throughput(measure, s)
  {
    var n := if s.rngRuns < 0 then 0 else s.rngRuns;
    var sum, missing := 0.0, 0;
    for i := 0 to n
      invariant sum == SumOf(measure, s, i) && missing == i - Succeeded(measure, s, i)
      invariant Succeeded(measure, s, i) == 0 ==> sum == 0.0
    {
      var result := measure(s, i + 1);
      if result == None {
        missing := missing + 1;
      } else if result.value != 0.0 {
        sum := sum + result.value;
      }
    }
    var runs := s.rngRuns - missing;
    if runs == 0 {
      return 0.0;
    }
    throughput := s.fields[TcpNodes].number as real * sum / runs as real;
  }

  /** The seeds from 1 to `n` with a result. */
  ghost function SeedsWithResult(measure: Measure, s: Suite, n: nat): set<nat> {
    set seed: nat | 1 <= seed <= n && measure(s, seed).Some?
  }

  lemma {:induction false} SucceededCounts(measure: Measure, s: Suite, n: nat)
    ensures Succeeded(measure, s, n) == |SeedsWithResult(measure, s, n)|
  {
    if n == 0 {
      assert SeedsWithResult(measure, s, n) == {};
    } else {
      SucceededCounts(measure, s, n - 1);
      assert SeedsWithResult(measure, s, n)
          == SeedsWithResult(measure, s, n - 1) + (if measure(s, n).Some? then {n} else {});
    }
  }

  /** The results of the seeds 1 to `n`, in order, without the missing ones. */
  ghost function Results(measure: Measure, s: Suite, n: nat): seq<real> {
    if n == 0 then [] else Results(measure, s, n - 1) + (if measure(s, n).Some? then [measure(s, n).value] else [])
  }

  ghost function Added(xs: seq<real>): real {
    if xs == [] then 0.0 else Added(xs[..|xs| - 1]) + xs[|xs| - 1]
  }

  lemma {:induction false} SumOfResults(measure: Measure, s: Suite, n: nat)
    ensures SumOf(measure, s, n) == Added(Results(measure, s, n)) && Succeeded(measure, s, n) == |Results(measure, s, n)|
  {
    if n == 0 {
    } else {
      SumOfResults(measure, s, n - 1);
      var before := Results(measure, s, n - 1);
      if measure(s, n).Some? {
        assert (before + [measure(s, n).value])[..|before|] == before;
      } else {
        assert before + [] == before;
      }
    }
  }

  /** The throughput is the number of nodes times the mean over the seeds that have a result: times their number it is the
      number of nodes times their sum; without any it is 0. */
  lemma ThroughputIsMean(measure: Measure, s: Suite)
    requires Typed(s)
    ensures var results := Results(measure, s, if s.rngRuns < 0 then 0 else s.rngRuns);
      && Throughput(measure, s) * |results| as real == s.fields[TcpNodes].number as real * Added(results)
      && (results == [] ==> Throughput(measure, s) == 0.0)
  {
    var n := if s.rngRuns < 0 then 0 else s.rngRuns;
    SumOfResults(measure, s, n);
    var k, sum, nodes := Succeeded(measure, s, n), SumOf(measure, s, n), s.fields[TcpNodes].number as real;
    if k == 0 {
      assert Results(measure, s, n) == [];
      assert nodes * Added([]) == 0.0;
    } else {
      assert Throughput(measure, s) == nodes * (sum / k as real);
      MeanTimesCount(nodes, sum, k as real);
    }
  }

  lemma MeanTimesCount(nodes: real, sum: real, k: real)
    requires k > 0.0
    ensures nodes * (sum / k) * k == nodes * sum
  {
    assert sum / k * k == sum;
  }

  ghost predicate AllValidated(configs: seq<SuiteConfig>) {
    forall config | config in configs :: Validated(config)
  }

  type Data = map<Suite, real>

  function Entry(results: map<string, Data>, name: string): Data {
    if name in results then results[name] else map[]
  }

  /** Every value is the throughput of its suite. */
  ghost predicate Measured(measure: Measure, data: Data) {
    forall s | s in data :: Typed(s) && data[s] == Throughput(measure, s)
  }

  /** One configuration and case: equal suites share one entry. */
  method CollectConfig(measure: Measure, config: SuiteConfig, kase: Case) returns (data: Data)
    requires Validated(config)
    ensures Measured(measure, data) && forall s :: s in data <==> s in GetAllExperiments(config, kase)
  {
    var suites := GetAllExperiments(config, kase);
    data := map[];
    for i := 0 to |suites|
      invariant Measured(measure, data) && forall s :: s in data <==> s in suites[..i]
    {
      ExperimentsExact(config, kase, suites[i]);
      ExperimentTyped(config, kase, suites[i]);
      var throughput := RunOnce(measure, suites[i]);
      data := data[suites[i] := throughput];
      assert suites[..i + 1] == suites[..i] + [suites[i]];
    }
    assert suites[..|suites|] == suites;
  }

  /** The suite is an experiment of the configuration, which has this name. */
  ghost predicate Contributes(config: SuiteConfig, kase: Case, name: string, s: Suite)
    requires Validated(config)
  {
    config.name == name && s in GetAllExperiments(config, kase)
  }

  /** It is one of one of the first `n` configurations. */
  ghost predicate InCase(configs: seq<SuiteConfig>, n: nat, kase: Case, name: string, s: Suite)
    requires AllValidated(configs) && n <= |configs|
  {
    exists i :: 0 <= i < n && Contributes(configs[i], kase, name, s)
  }

  /** It is one of one of the configurations for one of the first `n` cases. */
  ghost predicate InCases(configs: seq<SuiteConfig>, cases: seq<Case>, n: nat, name: string, s: Suite)
    requires AllValidated(configs) && n <= |cases|
  {
    exists k :: 0 <= k < n && InCase(configs, |configs|, cases[k], name, s)
  }

  ghost predicate AllMeasured(measure: Measure, results: map<string, Data>) {
    forall name | name in results :: Measured(measure, results[name])
  }

  /** `{**results[name], **data}`, from an empty entry if there is none. */
  method Merge(measure: Measure, before: map<string, Data>, name: string, data: Data) returns (results: map<string, Data>)
    requires AllMeasured(measure, before) && Measured(measure, data)
    ensures AllMeasured(measure, results)
    ensures forall n, s :: s in Entry(results, n) <==> s in Entry(before, n) || (n == name && s in data)
  {
    results := before[name := Entry(before, name) + data];
  }

  lemma InCaseStep(configs: seq<SuiteConfig>, n: nat, kase: Case)
    requires AllValidated(configs) && n < |configs|
    ensures forall name, s :: InCase(configs, n + 1, kase, name, s)
                         <==> InCase(configs, n, kase, name, s) || Contributes(configs[n], kase, name, s)
  {}

  method CollectCase(measure: Measure, configs: seq<SuiteConfig>, kase: Case, before: map<string, Data>)
      returns (results: map<string, Data>)
    requires AllValidated(configs) && AllMeasured(measure, before)
    ensures AllMeasured(measure, results)
    ensures forall name, s :: s in Entry(results, name) <==> s in Entry(before, name) || InCase(configs, |configs|, kase, name, s)
  {
    results := before;
    for i := 0 to |configs|
      invariant AllMeasured(measure, results)
      invariant forall name, s :: s in Entry(results, name) <==> s in Entry(before, name) || InCase(configs, i, kase, name, s)
    {
      var data := CollectConfig(measure, configs[i], kase);
      results := Merge(measure, results, configs[i].name, data);
      InCaseStep(configs, i, kase);
    }
  }

  /** The entry of each name holds the experiments of its configurations for all the cases, each with its throughput. */
  method CollectThroughput(measure: Measure, configs: seq<SuiteConfig>, cases: seq<Case>) returns (results: map<string, Data>)
    requires AllValidated(configs)
    ensures AllMeasured(measure, results)
    ensures forall name, s :: s in Entry(results, name) <==> InCases(configs, cases, |cases|, name, s)
  {
    results := map[];
    for k := 0 to |cases|
      invariant AllMeasured(measure, results)
      invariant forall name, s :: s in Entry(results, name) <==> InCases(configs, cases, k, name, s)
    {
      results := CollectCase(measure, configs, cases[k], results);
      forall name, s
        ensures InCases(configs, cases, k + 1, name, s) <==>
                InCases(configs, cases, k, name, s) || InCase(configs, |configs|, cases[k], name, s)
      {}
    }
  }

  // ----- The bars of the collected suites -----

  /** Each suite of the data once. */
  ghost predicate Lists(suites: seq<Suite>, data: Data) {
    && Distinct(suites)
    && (forall i | 0 <= i < |suites| :: suites[i] in data && Typed(suites[i]))
    && (forall s | s in data :: s in suites)
  }

  ghost function RowOf(suites: seq<Suite>, data: Data, groupBy: seq<Column>, caseColumns: seq<Column>, n: nat)
      : Row<seq<Value>, seq<Value>>
    requires Lists(suites, data) && n < |suites|
  {
    var s := suites[n];
    Row(Key(s, groupBy, |groupBy|), Key(s, caseColumns, |caseColumns|), data[s])
  }

  ghost function RowsOf(suites: seq<Suite>, data: Data, groupBy: seq<Column>, caseColumns: seq<Column>, n: nat)
      : (rows: seq<Row<seq<Value>, seq<Value>>>)
    requires Lists(suites, data) && n <= |suites|
    ensures |rows| == n
  {
    if n == 0 then []
    else RowsOf(suites, data, groupBy, caseColumns, n - 1) + [RowOf(suites, data, groupBy, caseColumns, n - 1)]
  }

  lemma {:induction false} RowAt(suites: seq<Suite>, data: Data, groupBy: seq<Column>, caseColumns: seq<Column>, n: nat, i: nat)
    requires Lists(suites, data) && n <= |suites| && i < n
    ensures RowsOf(suites, data, groupBy, caseColumns, n)[i] == RowOf(suites, data, groupBy, caseColumns, i)
  {
    if i == n - 1 {
    } else {
      RowAt(suites, data, groupBy, caseColumns, n - 1, i);
    }
  }

  /** One row for each suite of the data.  Bars are plotted exactly if every group occurs with every case. */
  method ComparisonBars(data: Data, groupBy: seq<Column>, caseColumns: seq<Column>)
      returns (o: Outcome<seq<Value>, seq<Value>>, rows: seq<Row<seq<Value>, seq<Value>>>, suites: seq<Suite>)
    requires Disjoint(groupBy, caseColumns)
    requires forall s | s in data :: Typed(s)
    ensures Lists(suites, data) && rows == RowsOf(suites, data, groupBy, caseColumns, |suites|)
    ensures o.NoData? <==> rows == []
    ensures o.Plotted? <==> rows != [] && Complete(rows)
    ensures o.Plotted? ==>
      ListsGroups(rows, o.groups) && ListsCases(rows, o.cases) && ExactBars(rows, o.groups, o.cases, o.bars)
    ensures o.Plotted? ==> Sorted(o.groups, KeyLeq) && Sorted(o.cases, KeyLeq)
  {
    suites := Enumerate(data.Keys);
    assert forall i | 0 <= i < |suites| :: suites[i] in suites;
    rows := [];
    for i := 0 to |suites|
      invariant rows == RowsOf(suites, data, groupBy, caseColumns, i)
    {
      var s := suites[i];
      rows := rows + [Row(Key(s, groupBy, |groupBy|), Key(s, caseColumns, |caseColumns|), data[s])];
    }
    KeyOrder();
    o := BarsOf(rows, KeyLeq, KeyLeq);
  }

  /** The data are the collected suites of one configuration. */
  ghost predicate IsDataOf(config: SuiteConfig, cases: seq<Case>, data: Data)
    requires Validated(config)
  {
    forall s :: s in data <==> Collected(config, cases, s)
  }

  /** Row `k` has the group of row `i` and the case of row `j` exactly if suite `k` agrees with the two suites there. */
  lemma SameKeys(suites: seq<Suite>, data: Data, groupBy: seq<Column>, caseColumns: seq<Column>, i: nat, j: nat, k: nat)
    requires Lists(suites, data) && i < |suites| && j < |suites| && k < |suites|
    ensures var rows := RowsOf(suites, data, groupBy, caseColumns, |suites|);
      (rows[k].group == rows[i].group && rows[k].kase == rows[j].kase)
      <==> (Agree(suites[k], suites[i], groupBy) && Agree(suites[k], suites[j], caseColumns))
  {
    RowAt(suites, data, groupBy, caseColumns, |suites|, i);
    RowAt(suites, data, groupBy, caseColumns, |suites|, j);
    RowAt(suites, data, groupBy, caseColumns, |suites|, k);
    KeysEqualIff(suites[k], suites[i], groupBy);
    KeysEqualIff(suites[k], suites[j], caseColumns);
  }

  lemma OccursIffCombined(config: SuiteConfig, cases: seq<Case>, groupBy: seq<Column>, caseColumns: seq<Column>,
                          data: Data, suites: seq<Suite>, i: nat, j: nat)
    requires Validated(config) && IsDataOf(config, cases, data) && Lists(suites, data) && i < |suites| && j < |suites|
    ensures var rows := RowsOf(suites, data, groupBy, caseColumns, |suites|);
      Occurs(rows, rows[i].group, rows[j].kase) <==> Combined(config, cases, groupBy, caseColumns, suites[i], suites[j])
  {
    var rows := RowsOf(suites, data, groupBy, caseColumns, |suites|);
    if Occurs(rows, rows[i].group, rows[j].kase) {
      var k :| 0 <= k < |rows| && rows[k].group == rows[i].group && rows[k].kase == rows[j].kase;
      SameKeys(suites, data, groupBy, caseColumns, i, j, k);
    }
    if Combined(config, cases, groupBy, caseColumns, suites[i], suites[j]) {
      var u :| Typed(u) && Collected(config, cases, u) && Agree(u, suites[i], groupBy) && Agree(u, suites[j], caseColumns);
      var k := IndexOf(suites, data, u);
      SameKeys(suites, data, groupBy, caseColumns, i, j, k);
    }
  }

  /** For the suites of one configuration, the table has an entry for every (case, group) exactly if `beta` and `case`
      are on one side of the plot or the listed cases cannot differ in `beta`. */
  lemma LookupsDefinedIff(config: SuiteConfig, cases: seq<Case>, groupBy: seq<Column>, caseColumns: seq<Column>,
                          data: Data, suites: seq<Suite>)
    requires Validated(config) && IsDataOf(config, cases, data) && Lists(suites, data) && data != map[]
    requires Disjoint(groupBy, caseColumns)
    ensures Complete(RowsOf(suites, data, groupBy, caseColumns, |suites|))
            <==> (!Split(groupBy, caseColumns) || OneBeta(config, cases))
  {
    if !Split(groupBy, caseColumns) || OneBeta(config, cases) {
      CompleteIfTogether(config, cases, groupBy, caseColumns, data, suites);
    } else {
      IncompleteIfSplit(config, cases, groupBy, caseColumns, data, suites);
    }
  }

  lemma CompleteIfTogether(config: SuiteConfig, cases: seq<Case>, groupBy: seq<Column>, caseColumns: seq<Column>,
                           data: Data, suites: seq<Suite>)
    requires Validated(config) && IsDataOf(config, cases, data) && Lists(suites, data)
    requires Disjoint(groupBy, caseColumns)
    requires !Split(groupBy, caseColumns) || OneBeta(config, cases)
    ensures Complete(RowsOf(suites, data, groupBy, caseColumns, |suites|))
  {
    var rows := RowsOf(suites, data, groupBy, caseColumns, |suites|);
    forall i, j | 0 <= i < |rows| && 0 <= j < |rows| ensures Occurs(rows, rows[i].group, rows[j].kase) {
      assert Collected(config, cases, suites[i]) && Collected(config, cases, suites[j]);
      var k1 :| k1 in cases && IsExperiment(config, k1, suites[i]);
      var k2 :| k2 in cases && IsExperiment(config, k2, suites[j]);
      CombinedIfTogether(config, cases, groupBy, caseColumns, k1, suites[i], k2, suites[j]);
      OccursIffCombined(config, cases, groupBy, caseColumns, data, suites, i, j);
    }
  }

  lemma IncompleteIfSplit(config: SuiteConfig, cases: seq<Case>, groupBy: seq<Column>, caseColumns: seq<Column>,
                          data: Data, suites: seq<Suite>)
    requires Validated(config) && IsDataOf(config, cases, data) && Lists(suites, data) && data != map[]
    requires Split(groupBy, caseColumns) && !OneBeta(config, cases)
    ensures !Complete(RowsOf(suites, data, groupBy, caseColumns, |suites|))
  {
    var s0 :| s0 in data;
    var s, t := NotCombinedIfSplit(config, cases, groupBy, caseColumns, s0);
    var i := IndexOf(suites, data, s);
    var j := IndexOf(suites, data, t);
    OccursIffCombined(config, cases, groupBy, caseColumns, data, suites, i, j);
    var rows := RowsOf(suites, data, groupBy, caseColumns, |suites|);
    assert !Occurs(rows, rows[i].group, rows[j].kase);
  }

  lemma IndexOf(suites: seq<Suite>, data: Data, s: Suite) returns (i: nat)
    requires Lists(suites, data) && s in data
    ensures i < |suites| && suites[i] == s
  {
    i :| 0 <= i < |suites| && suites[i] == s;
  }

  /** What is collected for a name that one configuration has. */
  lemma CollectedIsData(configs: seq<SuiteConfig>, cases: seq<Case>, results: map<string, Data>, i: nat)
    requires AllValidated(configs) && i < |configs|
    requires forall j | 0 <= j < |configs| && configs[j].name == configs[i].name :: configs[j] == configs[i]
    requires forall name, s :: s in Entry(results, name) <==> InCases(configs, cases, |cases|, name, s)
    ensures IsDataOf(configs[i], cases, Entry(results, configs[i].name))
  {
    var config := configs[i];
    forall s ensures s in Entry(results, config.name) <==> Collected(config, cases, s) {
      forall kase { ExperimentsExact(config, kase, s); }
      if Collected(config, cases, s) {
        var kase :| kase in cases && IsExperiment(config, kase, s);
        var k :| 0 <= k < |cases| && cases[k] == kase;
        assert Contributes(configs[i], cases[k], config.name, s);
        assert InCase(configs, |configs|, cases[k], config.name, s);
      }
    }
  }

  // ----- The values of the bars -----

  /** The suite has these keys. */
  predicate HasKeys(s: Suite, groupBy: seq<Column>, caseColumns: seq<Column>, group: seq<Value>, kase: seq<Value>)
    requires forall c: Column :: c in s.fields
  {
    Key(s, groupBy, |groupBy|) == group && Key(s, caseColumns, |caseColumns|) == kase
  }

  ghost predicate AllTyped(suites: seq<Suite>) {
    forall i | 0 <= i < |suites| :: Typed(suites[i])
  }

  /** The sum of the throughputs of those of the first `n` suites that have these keys. */
  ghost function SumOfThroughputs(measure: Measure, suites: seq<Suite>, groupBy: seq<Column>, caseColumns: seq<Column>,
                                  group: seq<Value>, kase: seq<Value>, n: nat): real
    requires AllTyped(suites) && n <= |suites|
  {
    if n == 0 then 0.0
    else
      SumOfThroughputs(measure, suites, groupBy, caseColumns, group, kase, n - 1)
      + (if HasKeys(suites[n - 1], groupBy, caseColumns, group, kase) then Throughput(measure, suites[n - 1]) else 0.0)
  }

  /** How many of the first `n` suites have these keys. */
  ghost function Sharing(suites: seq<Suite>, groupBy: seq<Column>, caseColumns: seq<Column>,
                         group: seq<Value>, kase: seq<Value>, n: nat): nat
    requires AllTyped(suites) && n <= |suites|
  {
    if n == 0 then 0
    else
      Sharing(suites, groupBy, caseColumns, group, kase, n - 1)
      + (if HasKeys(suites[n - 1], groupBy, caseColumns, group, kase) then 1 else 0)
  }

  lemma {:induction false} TotalsOfSuites(measure: Measure, suites: seq<Suite>, data: Data,
                                          groupBy: seq<Column>, caseColumns: seq<Column>,
                                          group: seq<Value>, kase: seq<Value>, n: nat)
    requires Lists(suites, data) && AllTyped(suites) && Measured(measure, data) && n <= |suites|
    ensures var rows := RowsOf(suites, data, groupBy, caseColumns, n);
      && Total(rows, group, kase, n) == SumOfThroughputs(measure, suites, groupBy, caseColumns, group, kase, n)
      && Count(rows, group, kase, n) == Sharing(suites, groupBy, caseColumns, group, kase, n)
  {
    if n == 0 {
    } else {
      var before := RowsOf(suites, data, groupBy, caseColumns, n - 1);
      TotalsOfSuites(measure, suites, data, groupBy, caseColumns, group, kase, n - 1);
      PrefixTotals(before, [RowOf(suites, data, groupBy, caseColumns, n - 1)], group, kase, n - 1);
    }
  }

  /** The bar is the mean of the throughputs of the suites that share its keys. */
  ghost predicate IsMeanThroughput(measure: Measure, suites: seq<Suite>, groupBy: seq<Column>, caseColumns: seq<Column>,
                                   group: seq<Value>, kase: seq<Value>, bar: real)
    requires AllTyped(suites)
  {
    var n := Sharing(suites, groupBy, caseColumns, group, kase, |suites|);
    && n > 0
    && bar == SumOfThroughputs(measure, suites, groupBy, caseColumns, group, kase, |suites|) / n as real
  }

  /** One bar for each of the groups and each of the cases that the suites have. */
  ghost predicate IsPlotOf(measure: Measure, suites: seq<Suite>, groupBy: seq<Column>, caseColumns: seq<Column>,
                           groups: seq<seq<Value>>, cases: seq<seq<Value>>, bars: seq<seq<real>>)
    requires AllTyped(suites)
  {
    && Distinct(groups) && Distinct(cases) && Sorted(groups, KeyLeq) && Sorted(cases, KeyLeq)
    && (forall g :: g in groups <==> exists k :: 0 <= k < |suites| && Key(suites[k], groupBy, |groupBy|) == g)
    && (forall c :: c in cases <==> exists k :: 0 <= k < |suites| && Key(suites[k], caseColumns, |caseColumns|) == c)
    && |bars| == |groups| && (forall i | 0 <= i < |bars| :: |bars[i]| == |cases|)
    && (forall i, j | 0 <= i < |groups| && 0 <= j < |cases| ::
          IsMeanThroughput(measure, suites, groupBy, caseColumns, groups[i], cases[j], bars[i][j]))
  }

  lemma BarsAreMeanThroughputs(measure: Measure, suites: seq<Suite>, data: Data,
                               groupBy: seq<Column>, caseColumns: seq<Column>,
                               groups: seq<seq<Value>>, cases: seq<seq<Value>>, bars: seq<seq<real>>)
    requires Lists(suites, data) && AllTyped(suites) && Measured(measure, data)
    requires var rows := RowsOf(suites, data, groupBy, caseColumns, |suites|);
      ListsGroups(rows, groups) && ListsCases(rows, cases) && ExactBars(rows, groups, cases, bars)
    requires Sorted(groups, KeyLeq) && Sorted(cases, KeyLeq)
    ensures IsPlotOf(measure, suites, groupBy, caseColumns, groups, cases, bars)
  {
    var rows := RowsOf(suites, data, groupBy, caseColumns, |suites|);
    forall g ensures HasGroup(rows, g) <==> exists k :: 0 <= k < |suites| && Key(suites[k], groupBy, |groupBy|) == g {
      GroupOfSuite(suites, data, groupBy, caseColumns, g);
    }
    forall c ensures HasCase(rows, c) <==> exists k :: 0 <= k < |suites| && Key(suites[k], caseColumns, |caseColumns|) == c {
      CaseOfSuite(suites, data, groupBy, caseColumns, c);
    }
    forall i, j | 0 <= i < |groups| && 0 <= j < |cases|
      ensures IsMeanThroughput(measure, suites, groupBy, caseColumns, groups[i], cases[j], bars[i][j])
    {
      assert ExactBar(rows, groups[i], cases[j], bars[i][j]);
      TotalsOfSuites(measure, suites, data, groupBy, caseColumns, groups[i], cases[j], |suites|);
    }
  }

  lemma GroupOfSuite(suites: seq<Suite>, data: Data, groupBy: seq<Column>, caseColumns: seq<Column>, g: seq<Value>)
    requires Lists(suites, data)
    ensures HasGroup(RowsOf(suites, data, groupBy, caseColumns, |suites|), g)
            <==> exists k :: 0 <= k < |suites| && Key(suites[k], groupBy, |groupBy|) == g
  {
    forall k | 0 <= k < |suites|
      ensures RowsOf(suites, data, groupBy, caseColumns, |suites|)[k].group == Key(suites[k], groupBy, |groupBy|)
    {
      RowAt(suites, data, groupBy, caseColumns, |suites|, k);
    }
  }

  lemma CaseOfSuite(suites: seq<Suite>, data: Data, groupBy: seq<Column>, caseColumns: seq<Column>, c: seq<Value>)
    requires Lists(suites, data)
    ensures HasCase(RowsOf(suites, data, groupBy, caseColumns, |suites|), c)
            <==> exists k :: 0 <= k < |suites| && Key(suites[k], caseColumns, |caseColumns|) == c
  {
    forall k | 0 <= k < |suites|
      ensures RowsOf(suites, data, groupBy, caseColumns, |suites|)[k].kase == Key(suites[k], caseColumns, |caseColumns|)
    {
      RowAt(suites, data, groupBy, caseColumns, |suites|, k);
    }
  }

  /** Each collected suite once. */
  ghost predicate ListsCollected(config: SuiteConfig, cases: seq<Case>, suites: seq<Suite>)
    requires Validated(config)
  {
    AllTyped(suites) && Distinct(suites) && forall s :: s in suites <==> Collected(config, cases, s)
  }

  /** Collecting for one configuration and plotting: which of the three outcomes it has, and the bars. */
  method CompareCases(measure: Measure, config: SuiteConfig, cases: seq<Case>, groupBy: seq<Column>, caseColumns: seq<Column>)
      returns (o: Outcome<seq<Value>, seq<Value>>, suites: seq<Suite>)
    requires Validated(config) && Disjoint(groupBy, caseColumns)
    ensures ListsCollected(config, cases, suites)
    ensures o.NoData? <==> suites == []
    ensures o.NoData? <==> forall s :: !Collected(config, cases, s)
    ensures o.Plotted? <==> suites != [] && (!Split(groupBy, caseColumns) || OneBeta(config, cases))
    ensures o.Plotted? ==> IsPlotOf(measure, suites, groupBy, caseColumns, o.groups, o.cases, o.bars)
  {
    var results := CollectThroughput(measure, [config], cases);
    CollectedIsData([config], cases, results, 0);
    var data := Entry(results, config.name);
    var rows;
    o, rows, suites := ComparisonBars(data, groupBy, caseColumns);
    assert forall s :: s in suites <==> s in data;
    if suites != [] {
      assert suites[0] in data;
      LookupsDefinedIff(config, cases, groupBy, caseColumns, data, suites);
    }
    if o.Plotted? {
      BarsAreMeanThroughputs(measure, suites, data, groupBy, caseColumns, o.groups, o.cases, o.bars);
    }
  }
}
