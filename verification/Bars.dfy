/** The averages and the pivot table of `comparison_bars` in pylib/plots.py.

    A row stands for one suite: its group key, its case key and its value.  The source joins the two
    keys into one tuple and takes them apart again by length, which is a pair.
  */
module Bars {
  import opened Sequences
  import opened Sorting

  datatype Row<G, C> = Row(group: G, kase: C, value: real)

  // ----- The exact averages -----

  /** The sum of the values of the first `n` rows with these keys. */
  function Total<G(==), C(==)>(rows: seq<Row<G, C>>, g: G, c: C, n: nat): real
    requires n <= |rows|
  {
    if n == 0 then 0.0
    else Total(rows, g, c, n - 1) + (if rows[n - 1].group == g && rows[n - 1].kase == c then rows[n - 1].value else 0.0)
  }

  function Count<G(==), C(==)>(rows: seq<Row<G, C>>, g: G, c: C, n: nat): nat
    requires n <= |rows|
  {
    if n == 0 then 0
    else Count(rows, g, c, n - 1) + (if rows[n - 1].group == g && rows[n - 1].kase == c then 1 else 0)
  }

  function Mean<G(==), C(==)>(rows: seq<Row<G, C>>, g: G, c: C): real
    requires Count(rows, g, c, |rows|) > 0
  {
    Total(rows, g, c, |rows|) / Count(rows, g, c, |rows|) as real
  }

  lemma {:induction false} CountPositive<G(!new), C(!new)>(rows: seq<Row<G, C>>, g: G, c: C, n: nat)
    requires n <= |rows|
    ensures Count(rows, g, c, n) > 0 <==> exists k :: 0 <= k < n && rows[k].group == g && rows[k].kase == c
  {
    if n == 0 {
    } else {
      CountPositive(rows, g, c, n - 1);
    }
  }

  lemma {:induction false} ConcatTotals<G(!new), C(!new)>(a: seq<Row<G, C>>, b: seq<Row<G, C>>, g: G, c: C, n: nat)
    requires n <= |b|
    ensures Total(a + b, g, c, |a| + n) == Total(a, g, c, |a|) + Total(b, g, c, n)
    ensures Count(a + b, g, c, |a| + n) == Count(a, g, c, |a|) + Count(b, g, c, n)
  {
    if n == 0 {
      PrefixTotals(a, b, g, c, |a|);
    } else {
      ConcatTotals(a, b, g, c, n - 1);
      assert (a + b)[|a| + n - 1] == b[n - 1];
    }
  }

  lemma {:induction false} PrefixTotals<G(!new), C(!new)>(a: seq<Row<G, C>>, b: seq<Row<G, C>>, g: G, c: C, n: nat)
    requires n <= |a|
    ensures Total(a + b, g, c, n) == Total(a, g, c, n) && Count(a + b, g, c, n) == Count(a, g, c, n)
  {
    if n == 0 {
    } else {
      PrefixTotals(a, b, g, c, n - 1);
    }
  }

  lemma TotalsOfThree<G(!new), C(!new)>(front: seq<Row<G, C>>, r: Row<G, C>, back: seq<Row<G, C>>, g: G, c: C)
    ensures Total(front + [r] + back, g, c, |front + [r] + back|)
         == Total(front + back, g, c, |front + back|) + Total([r], g, c, 1)
    ensures Count(front + [r] + back, g, c, |front + [r] + back|)
         == Count(front + back, g, c, |front + back|) + Count([r], g, c, 1)
  {
    ConcatTotals(front + [r], back, g, c, |back|);
    ConcatTotals(front, [r], g, c, 1);
    ConcatTotals(front, back, g, c, |back|);
  }

  /** Totals and counts, and so the averages, do not depend on the order of the rows. */
  lemma {:induction false} TotalsOfPermutation<G(!new), C(!new)>(a: seq<Row<G, C>>, b: seq<Row<G, C>>, g: G, c: C)
    requires multiset(a) == multiset(b)
    ensures Total(a, g, c, |a|) == Total(b, g, c, |b|) && Count(a, g, c, |a|) == Count(b, g, c, |b|)
    decreases |a|
  {
    if a == [] {
      assert |multiset(b)| == 0;
    } else {
      var front, back := TakeOut(a, b);
      TotalsOfPermutation(a[1..], front + back, g, c);
      TotalsOfThree([], a[0], a[1..], g, c);
      TotalsOfThree(front, a[0], back, g, c);
      assert [] + [a[0]] + a[1..] == a && [] + a[1..] == a[1..];
    }
  }

  // ----- The running averages -----

  ghost predicate Averages<G(!new), C(!new)>(rows: seq<Row<G, C>>, n: nat, stats: map<(G, C), real>, counts: map<(G, C), nat>)
    requires n <= |rows|
  {
    && stats.Keys == counts.Keys
    && (forall g, c :: (g, c) in counts <==> Count(rows, g, c, n) > 0)
    && (forall g, c | (g, c) in counts ::
          counts[(g, c)] == Count(rows, g, c, n) && IsSum(stats[(g, c)], Count(rows, g, c, n), Total(rows, g, c, n)))
  }

  ghost predicate IsSum(average: real, count: nat, total: real) {
    average * count as real == total
  }

  lemma NextAverage(average: real, count: nat, total: real, value: real)
    requires IsSum(average, count, total)
    ensures IsSum((average * count as real + value) / (count + 1) as real, count + 1, total + value)
  {
    Quotient(average * count as real + value, (count + 1) as real);
  }

  lemma Quotient(y: real, z: real)
    requires z > 0.0
    ensures (y / z) * z == y
  {}

  lemma OnlyAverage(average: real, count: nat, total: real)
    requires IsSum(average, count, total) && count > 0
    ensures average == total / count as real
  {}

  /** The first loop: `stats` and `stats_count` read as 0 where they have no entry. */
  method RunningAverages<G(==,!new), C(==,!new)>(rows: seq<Row<G, C>>) returns (stats: map<(G, C), real>, counts: map<(G, C), nat>)
    ensures Averages(rows, |rows|, stats, counts)
  {
    stats := map[];
    counts := map[];
    for i := 0 to |rows|
      invariant Averages(rows, i, stats, counts)
    {
      var key := (rows[i].group, rows[i].kase);
      var average := if key in stats then stats[key] else 0.0;
      var count := if key in counts then counts[key] else 0;
      if key !in counts { NoTotal(rows, key.0, key.1, i); }
      NextAverage(average, count, Total(rows, key.0, key.1, i), rows[i].value);
      stats := stats[key := (average * count as real + rows[i].value) / (count + 1) as real];
      counts := counts[key := count + 1];
    }
  }

  lemma {:induction false} NoTotal<G(!new), C(!new)>(rows: seq<Row<G, C>>, g: G, c: C, n: nat)
    requires n <= |rows| && Count(rows, g, c, n) == 0
    ensures Total(rows, g, c, n) == 0.0
  {
    if n == 0 {
    } else {
      NoTotal(rows, g, c, n - 1);
    }
  }

  // ----- The pivot table and the bars -----

  type Table<!G, !C> = map<C, map<G, real>>

  ghost predicate IsPivot<G(!new), C(!new)>(keys: set<(G, C)>, stats: map<(G, C), real>, table: Table<G, C>) {
    && keys <= stats.Keys
    && (forall g, c :: c in table && g in table[c] <==> (g, c) in keys)
    && (forall g, c | (g, c) in keys :: table[c][g] == stats[(g, c)])
  }

  /** The second loop; its order over the entries does not matter. */
  method Pivot<G(==,!new), C(==,!new)>(stats: map<(G, C), real>) returns (table: Table<G, C>)
    ensures IsPivot(stats.Keys, stats, table)
  {
    table := map[];
    var left := stats.Keys;
    while left != {}
      invariant left <= stats.Keys && IsPivot(stats.Keys - left, stats, table)
      decreases left
    {
      var key :| key in left;
      var inner := if key.1 in table then table[key.1] else map[];
      table := table[key.1 := inner[key.0 := stats[key]]];
      left := left - {key};
    }
  }

  /** The elements of a set as a list, in any order. */
  method Enumerate<T(==,!new)>(s: set<T>) returns (xs: seq<T>)
    ensures forall x :: x in xs <==> x in s
    ensures Distinct(xs)
  {
    xs := [];
    var left := s;
    while left != {}
      invariant left <= s && forall x :: x in xs <==> x in s - left
      invariant Distinct(xs)
      decreases left
    {
      var x :| x in left;
      ghost var xs0 := xs;
      xs := xs + [x];
      assert forall y :: y in xs <==> y in xs0 || y == x;
      left := left - {x};
    }
  }

  datatype Outcome<G, C> =
    | Plotted(groups: seq<G>, cases: seq<C>, bars: seq<seq<real>>)
    | MissingKey
    | NoData

  /** Every group occurs with every case. */
  ghost predicate Complete<G, C>(rows: seq<Row<G, C>>) {
    forall i, j | 0 <= i < |rows| && 0 <= j < |rows| :: Occurs(rows, rows[i].group, rows[j].kase)
  }

  ghost predicate Occurs<G, C>(rows: seq<Row<G, C>>, g: G, c: C) {
    exists k :: 0 <= k < |rows| && rows[k].group == g && rows[k].kase == c
  }

  ghost predicate HasGroup<G, C>(rows: seq<Row<G, C>>, g: G) {
    exists k :: 0 <= k < |rows| && rows[k].group == g
  }

  ghost predicate HasCase<G, C>(rows: seq<Row<G, C>>, c: C) {
    exists k :: 0 <= k < |rows| && rows[k].kase == c
  }

  ghost predicate ListsGroups<G(!new), C(!new)>(rows: seq<Row<G, C>>, groups: seq<G>) {
    Distinct(groups) && forall g :: g in groups <==> HasGroup(rows, g)
  }

  ghost predicate ListsCases<G(!new), C(!new)>(rows: seq<Row<G, C>>, cases: seq<C>) {
    Distinct(cases) && forall c :: c in cases <==> HasCase(rows, c)
  }

  /** One bar for each group and each case, of the exact mean of the rows that share both. */
  ghost predicate ExactBars<G, C>(rows: seq<Row<G, C>>, groups: seq<G>, cases: seq<C>, bars: seq<seq<real>>) {
    && |bars| == |groups|
    && (forall i | 0 <= i < |bars| :: |bars[i]| == |cases|)
    && (forall i, j | 0 <= i < |groups| && 0 <= j < |cases| :: ExactBar(rows, groups[i], cases[j], bars[i][j]))
  }

  ghost predicate ExactBar<G, C>(rows: seq<Row<G, C>>, g: G, c: C, bar: real) {
    Count(rows, g, c, |rows|) > 0 && bar == Mean(rows, g, c)
  }

  predicate Present<G(==), C(==)>(table: Table<G, C>, g: G, c: C) {
    c in table && g in table[c]
  }

  ghost predicate AllPresent<G, C>(table: Table<G, C>, groups: seq<G>, cases: seq<C>) {
    forall i, j | 0 <= i < |groups| && 0 <= j < |cases| :: Present(table, groups[i], cases[j])
  }

  ghost predicate IsEntry<G, C>(table: Table<G, C>, g: G, c: C, bar: real) {
    Present(table, g, c) && bar == table[c][g]
  }

  ghost predicate IsRow<G, C>(table: Table<G, C>, g: G, cases: seq<C>, row: seq<real>) {
    |row| <= |cases| && forall j | 0 <= j < |row| :: IsEntry(table, g, cases[j], row[j])
  }

  /** The third loop: it stops at the first (case, group) without an entry. */
  method LookUp<G(==), C(==)>(table: Table<G, C>, groups: seq<G>, cases: seq<C>) returns (found: bool, bars: seq<seq<real>>)
    ensures found <==> AllPresent(table, groups, cases)
    ensures found ==> |bars| == |groups|
    ensures found ==> forall i | 0 <= i < |groups| :: |bars[i]| == |cases| && IsRow(table, groups[i], cases, bars[i])
  {
    bars := [];
    for i := 0 to |groups|
      invariant |bars| == i
      invariant forall k | 0 <= k < i :: |bars[k]| == |cases| && IsRow(table, groups[k], cases, bars[k])
    {
      var row: seq<real> := [];
      for j := 0 to |cases|
        invariant |row| == j && IsRow(table, groups[i], cases, row)
      {
        if !Present(table, groups[i], cases[j]) {
          return false, [];
        }
        row := row + [table[cases[j]][groups[i]]];
      }
      bars := bars + [row];
    }
    forall i, j | 0 <= i < |groups| && 0 <= j < |cases| ensures Present(table, groups[i], cases[j]) {
      assert IsEntry(table, groups[i], cases[j], bars[i][j]);
    }
    found := true;
  }

  /** Nothing plotted depends on the order in which the suites come. */
  lemma BarsIndependentOfOrder<G(!new), C(!new)>(a: seq<Row<G, C>>, b: seq<Row<G, C>>)
    requires multiset(a) == multiset(b)
    ensures Complete(a) <==> Complete(b)
    ensures forall g, c, bar :: ExactBar(a, g, c, bar) <==> ExactBar(b, g, c, bar)
  {
    if Complete(a) { CompletePermuted(a, b); }
    if Complete(b) { CompletePermuted(b, a); }
    forall g, c, bar ensures ExactBar(a, g, c, bar) <==> ExactBar(b, g, c, bar) {
      TotalsOfPermutation(a, b, g, c);
    }
  }

  lemma CompletePermuted<G(!new), C(!new)>(a: seq<Row<G, C>>, b: seq<Row<G, C>>)
    requires multiset(a) == multiset(b) && Complete(a)
    ensures Complete(b)
  {
    forall i, j | 0 <= i < |b| && 0 <= j < |b| ensures Occurs(b, b[i].group, b[j].kase) {
      var k := SameElement(a, b, i);
      var l := SameElement(a, b, j);
      assert Occurs(a, a[k].group, a[l].kase);
      CountPositive(a, b[i].group, b[j].kase, |a|);
      CountPositive(b, b[i].group, b[j].kase, |b|);
      TotalsOfPermutation(a, b, b[i].group, b[j].kase);
    }
  }

  method BarsOf<G(==,!new), C(==,!new)>(rows: seq<Row<G, C>>, groupLeq: (G, G) -> bool, caseLeq: (C, C) -> bool)
      returns (o: Outcome<G, C>)
    requires TotalOrder(groupLeq) && TotalOrder(caseLeq)
    ensures o.NoData? <==> rows == []
    ensures o.Plotted? <==> rows != [] && Complete(rows)
    ensures o.Plotted? ==>
      ListsGroups(rows, o.groups) && ListsCases(rows, o.cases) && ExactBars(rows, o.groups, o.cases, o.bars)
    ensures o.Plotted? ==> Sorted(o.groups, groupLeq) && Sorted(o.cases, caseLeq)
  {
    if rows == [] {
      return NoData;
    }
    var stats, counts := RunningAverages(rows);
    KeysOccur(rows, stats, counts);
    var groups, cases := Headings(rows, stats, groupLeq, caseLeq);
    var table := Pivot(stats);
    var found, bars := LookUp(table, groups, cases);
    PresentIffComplete(rows, stats, table, groups, cases);
    if found {
      BarsAreExact(rows, stats, counts, table, groups, cases, bars);
      o := Plotted(groups, cases, bars);
    } else {
      o := MissingKey;
    }
  }

  ghost predicate KeyedBy<G(!new), C(!new)>(rows: seq<Row<G, C>>, stats: map<(G, C), real>) {
    forall g, c :: (g, c) in stats <==> Occurs(rows, g, c)
  }

  lemma KeysOccur<G(!new), C(!new)>(rows: seq<Row<G, C>>, stats: map<(G, C), real>, counts: map<(G, C), nat>)
    requires Averages(rows, |rows|, stats, counts)
    ensures KeyedBy(rows, stats)
  {
    forall g, c ensures (g, c) in stats <==> Occurs(rows, g, c) {
      CountPositive(rows, g, c, |rows|);
    }
  }

  /** `list(sorted(s))` */
  method SortedList<T(==,!new)>(s: set<T>, leq: (T, T) -> bool) returns (xs: seq<T>)
    requires TotalOrder(leq)
    ensures Distinct(xs) && Sorted(xs, leq) && forall x :: x in xs <==> x in s
  {
    var any := Enumerate(s);
    SortOfDistinct(any, leq);
    SortSorts(any, leq);
    xs := Sort(any, leq);
  }

  /** `groups` and `cases`: the distinct first and second halves of the keys, in order. */
  method Headings<G(==,!new), C(==,!new)>(ghost rows: seq<Row<G, C>>, stats: map<(G, C), real>,
                                          groupLeq: (G, G) -> bool, caseLeq: (C, C) -> bool)
      returns (groups: seq<G>, cases: seq<C>)
    requires KeyedBy(rows, stats) && TotalOrder(groupLeq) && TotalOrder(caseLeq)
    ensures ListsGroups(rows, groups) && Sorted(groups, groupLeq)
    ensures ListsCases(rows, cases) && Sorted(cases, caseLeq)
  {
    groups := SortedList(set key | key in stats :: key.0, groupLeq);
    cases := SortedList(set key | key in stats :: key.1, caseLeq);
    forall k | 0 <= k < |rows| ensures (rows[k].group, rows[k].kase) in stats {
      assert Occurs(rows, rows[k].group, rows[k].kase);
    }
    forall g | g in groups ensures HasGroup(rows, g) {
      var key :| key in stats && key.0 == g;
      assert (key.0, key.1) in stats;
    }
    forall c | c in cases ensures HasCase(rows, c) {
      var key :| key in stats && key.1 == c;
      assert (key.0, key.1) in stats;
    }
  }

  lemma PresentIffComplete<G(!new), C(!new)>(rows: seq<Row<G, C>>, stats: map<(G, C), real>, table: Table<G, C>,
                                             groups: seq<G>, cases: seq<C>)
    requires KeyedBy(rows, stats) && IsPivot(stats.Keys, stats, table)
    requires ListsGroups(rows, groups) && ListsCases(rows, cases)
    ensures AllPresent(table, groups, cases) <==> Complete(rows)
  {
    if AllPresent(table, groups, cases) {
      forall i, j | 0 <= i < |rows| && 0 <= j < |rows| ensures Occurs(rows, rows[i].group, rows[j].kase) {
        assert rows[i].group in groups && rows[j].kase in cases;
        assert (rows[i].group, rows[j].kase) in stats;
      }
    }
    if Complete(rows) {
      forall i, j | 0 <= i < |groups| && 0 <= j < |cases| ensures Present(table, groups[i], cases[j]) {
        assert groups[i] in groups && cases[j] in cases;
        var k :| 0 <= k < |rows| && rows[k].group == groups[i];
        var l :| 0 <= l < |rows| && rows[l].kase == cases[j];
        assert Occurs(rows, rows[k].group, rows[l].kase);
        assert (groups[i], cases[j]) in stats;
      }
    }
  }

  lemma BarsAreExact<G(!new), C(!new)>(rows: seq<Row<G, C>>, stats: map<(G, C), real>, counts: map<(G, C), nat>,
                                       table: Table<G, C>, groups: seq<G>, cases: seq<C>, bars: seq<seq<real>>)
    requires Averages(rows, |rows|, stats, counts) && IsPivot(stats.Keys, stats, table)
    requires |bars| == |groups|
    requires forall i | 0 <= i < |groups| :: |bars[i]| == |cases| && IsRow(table, groups[i], cases, bars[i])
    ensures ExactBars(rows, groups, cases, bars)
  {
    forall i, j | 0 <= i < |groups| && 0 <= j < |cases| ensures ExactBar(rows, groups[i], cases[j], bars[i][j]) {
      var g, c := groups[i], cases[j];
      assert IsEntry(table, g, c, bars[i][j]) && (g, c) in stats;
      OnlyAverage(stats[(g, c)], Count(rows, g, c, |rows|), Total(rows, g, c, |rows|));
    }
  }
}
