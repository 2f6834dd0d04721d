/** Aggregates over audit findings that are computed separately and must agree with each other. */
module FleetReport {
  import opened Wrappers

  /** `Unranked` is `info` and any other text, none of which has a total. */
  datatype Severity = CriticalSeverity | HighSeverity | MediumSeverity | LowSeverity | Unranked

  /** `Unknown` is any status without a counter; the engine's `warn` is one. */
  datatype Status = Fail | ManualReview | Pass | NotApplicable | Unknown

  datatype Finding = Finding(run: nat, domain: string, status: Status, severity: Severity)

  predicate Failed(f: Finding) { f.status == Fail }

  predicate Severe(f: Finding) { Failed(f) && (f.severity == CriticalSeverity || f.severity == HighSeverity) }

  predicate Critical(f: Finding) { Failed(f) && f.severity == CriticalSeverity }

  predicate High(f: Finding) { Failed(f) && f.severity == HighSeverity }

  predicate Medium(f: Finding) { Failed(f) && f.severity == MediumSeverity }

  predicate Low(f: Finding) { Failed(f) && f.severity == LowSeverity }

  function Count<T>(s: seq<T>, p: T -> bool): nat {
    if s == [] then 0 else Count(s[..|s| - 1], p) + if p(s[|s| - 1]) then 1 else 0
  }

  lemma CountMore<T>(s: seq<T>, x: T, p: T -> bool)
    ensures Count(s + [x], p) == Count(s, p) + if p(x) then 1 else 0
  {
  }

  lemma {:induction false} CountConcat<T>(s: seq<T>, t: seq<T>, p: T -> bool)
    ensures Count(s + t, p) == Count(s, p) + Count(t, p)
  {
    if t == [] {
      assert s + t == s;
    } else {
      var n := |t| - 1;
      CountConcat(s, t[..n], p);
      assert s + t == (s + t[..n]) + [t[n]];
      CountMore(s + t[..n], t[n], p);
    }
  }

  /* ---------- Findings by run ---------- */

  function ByRun(findings: seq<Finding>, run: nat): seq<Finding> {
    if findings == [] then []
    else
      var n := |findings| - 1;
      ByRun(findings[..n], run) + if findings[n].run == run then [findings[n]] else []
  }

  /** The order in which the summary visits the findings. */
  function Visited(runs: seq<nat>, findings: seq<Finding>): seq<Finding> {
    if runs == [] then []
    else Visited(runs[..|runs| - 1], findings) + ByRun(findings, runs[|runs| - 1])
  }

  lemma {:induction false} VisitedMore(runs: seq<nat>, findings: seq<Finding>, f: Finding, p: Finding -> bool)
    requires Distinct(runs)
    ensures Count(Visited(runs, findings + [f]), p)
            == Count(Visited(runs, findings), p) + if f.run in runs && p(f) then 1 else 0
  {
    if runs != [] {
      var n := |runs| - 1;
      VisitedMore(runs[..n], findings, f, p);
      assert runs == runs[..n] + [runs[n]];
      assert (findings + [f])[..|findings|] == findings;
      CountConcat(Visited(runs[..n], findings + [f]), ByRun(findings + [f], runs[n]), p);
      CountConcat(Visited(runs[..n], findings), ByRun(findings, runs[n]), p);
      if f.run == runs[n] {
        CountMore(ByRun(findings, runs[n]), f, p);
      } else {
        assert ByRun(findings + [f], runs[n]) == ByRun(findings, runs[n]);
      }
    }
  }

  /** Visiting the findings run by run counts each of them once. */
  lemma {:induction false} VisitsEach(runs: seq<nat>, findings: seq<Finding>, p: Finding -> bool)
    requires Distinct(runs) && forall f :: f in findings ==> f.run in runs
    ensures Count(Visited(runs, findings), p) == Count(findings, p)
  {
    if findings == [] {
      VisitedNone(runs);
    } else {
      var n := |findings| - 1;
      VisitsEach(runs, findings[..n], p);
      assert findings == findings[..n] + [findings[n]];
      VisitedMore(runs, findings[..n], findings[n], p);
    }
  }

  lemma {:induction false} VisitedNone(runs: seq<nat>)
    ensures Visited(runs, []) == []
  {
    if runs != [] {
      VisitedNone(runs[..|runs| - 1]);
    }
  }

  /* ---------- Totals over a map ---------- */

  ghost function Total(m: map<string, nat>): nat {
    if m == map[] then 0
    else
      var k :| k in m;
      m[k] + Total(m - {k})
  }

  lemma {:induction false} TotalWithout(m: map<string, nat>, k: string)
    requires k in m
    ensures Total(m) == m[k] + Total(m - {k})
    decreases |m|
  {
    var k0 :| k0 in m && Total(m) == m[k0] + Total(m - {k0});
    if k0 != k {
      TotalWithout(m - {k0}, k);
      TotalWithout(m - {k}, k0);
      assert m - {k0} - {k} == m - {k} - {k0};
    }
  }

  lemma TotalUpdate(m: map<string, nat>, k: string, v: nat)
    ensures Total(m[k := v]) == v + Total(m) - if k in m then m[k] else 0
  {
    TotalWithout(m[k := v], k);
    assert m[k := v] - {k} == m - {k};
    if k in m {
      TotalWithout(m, k);
    } else {
      assert m - {k} == m;
    }
  }

  /* ---------- The batch summary ---------- */

  datatype Severities = Severities(critical: nat, high: nat, medium: nat, low: nat)

  datatype DeviceRow = DeviceRow(run: nat, high: nat, medium: nat, low: nat)

  function HighOf(r: DeviceRow): nat { r.high }

  function MediumOf(r: DeviceRow): nat { r.medium }

  function LowOf(r: DeviceRow): nat { r.low }

  function Sum(rows: seq<DeviceRow>, f: DeviceRow -> nat): nat {
    if rows == [] then 0 else Sum(rows[..|rows| - 1], f) + f(rows[|rows| - 1])
  }

  function SeverityCounts(findings: seq<Finding>): Severities {
    Severities(Count(findings, Critical), Count(findings, High), Count(findings, Medium), Count(findings, Low))
  }

  /** The counters after the findings seen so far. */
  ghost predicate Tallied(seen: seq<Finding>, totals: Severities, categories: map<string, nat>) {
    && totals == SeverityCounts(seen)
    && ByCategory(seen, categories)
    && Total(categories) == Count(seen, Failed)
  }

  ghost predicate ByCategory(seen: seq<Finding>, categories: map<string, nat>) {
    && (forall d :: d in categories ==> categories[d] == Count(seen, InDomain(d)))
    && (forall d :: d !in categories ==> Count(seen, InDomain(d)) == 0)
  }

  function InDomain(d: string): Finding -> bool {
    (f: Finding) => Failed(f) && f.domain == d
  }

  /** `findings_by_run` */
  method GroupByRun(findings: seq<Finding>) returns (groups: map<nat, seq<Finding>>)
    ensures forall r :: r in groups ==> groups[r] == ByRun(findings, r)
    ensures forall r :: r !in groups ==> ByRun(findings, r) == []
  {
    groups := map[];
    for i := 0 to |findings|
      invariant forall r :: r in groups ==> groups[r] == ByRun(findings[..i], r)
      invariant forall r :: r !in groups ==> ByRun(findings[..i], r) == []
    {
      var f := findings[i];
      assert findings[..i + 1][..i] == findings[..i];
      groups := groups[f.run := (if f.run in groups then groups[f.run] else []) + [f]];
    }
    assert findings[..|findings|] == findings;
  }

  lemma CategoryMore(seen: seq<Finding>, categories: map<string, nat>, f: Finding)
    requires Failed(f) && ByCategory(seen, categories)
    ensures ByCategory(seen + [f], AddCategory(categories, f.domain))
  {
  }

  lemma CategorySame(seen: seq<Finding>, categories: map<string, nat>, f: Finding)
    requires !Failed(f) && ByCategory(seen, categories)
    ensures ByCategory(seen + [f], categories)
  {
  }

  lemma SeverityMore(seen: seq<Finding>, f: Finding)
    ensures SeverityCounts(seen + [f]) == AddSeverity(SeverityCounts(seen), f)
  {
    CountMore(seen, f, Critical);
    CountMore(seen, f, High);
    CountMore(seen, f, Medium);
    CountMore(seen, f, Low);
  }

  lemma TotalMore(seen: seq<Finding>, categories: map<string, nat>, f: Finding)
    requires Total(categories) == Count(seen, Failed)
    ensures Total(AfterFinding(categories, f)) == Count(seen + [f], Failed)
  {
    CountMore(seen, f, Failed);
    TotalUpdate(categories, f.domain, (if f.domain in categories then categories[f.domain] else 0) + 1);
  }

  /** The category counters, one finding at a time. */
  function CategoriesOf(findings: seq<Finding>): map<string, nat> {
    if findings == [] then map[] else AfterFinding(CategoriesOf(findings[..|findings| - 1]), findings[|findings| - 1])
  }

  /** Counting up one finding at a time gives the tallies of them all. */
  lemma {:induction false} CountedUp(findings: seq<Finding>)
    ensures Tallied(findings, SeverityCounts(findings), CategoriesOf(findings))
  {
    if findings != [] {
      var n := |findings| - 1;
      var before, f := findings[..n], findings[n];
      CountedUp(before);
      assert findings == before + [f];
      TotalMore(before, CategoriesOf(before), f);
      if Failed(f) {
        CategoryMore(before, CategoriesOf(before), f);
      } else {
        CategorySame(before, CategoriesOf(before), f);
      }
    }
  }

  function AfterFinding(categories: map<string, nat>, f: Finding): map<string, nat> {
    if Failed(f) then AddCategory(categories, f.domain) else categories
  }

  /** `severity_totals[f.severity] += 1`, for a severity that has a total */
  function AddSeverity(t: Severities, f: Finding): Severities {
    if Critical(f) then t.(critical := t.critical + 1)
    else if High(f) then t.(high := t.high + 1)
    else if Medium(f) then t.(medium := t.medium + 1)
    else if Low(f) then t.(low := t.low + 1)
    else t
  }

  function AddCategory(m: map<string, nat>, d: string): map<string, nat> {
    m[d := (if d in m then m[d] else 0) + 1]
  }

  function RowOf(run: nat, findings: seq<Finding>): DeviceRow {
    DeviceRow(run, Count(findings, Severe), Count(findings, Medium), Count(findings, Low))
  }

  function AddToRow(r: DeviceRow, f: Finding): DeviceRow {
    if Severe(f) then r.(high := r.high + 1)
    else if Medium(f) then r.(medium := r.medium + 1)
    else if Low(f) then r.(low := r.low + 1)
    else r
  }

  lemma RowMore(run: nat, findings: seq<Finding>, f: Finding)
    ensures RowOf(run, findings + [f]) == AddToRow(RowOf(run, findings), f)
  {
    CountMore(findings, f, Severe);
    CountMore(findings, f, Medium);
    CountMore(findings, f, Low);
  }

  function RowSum(r: DeviceRow): nat {
    r.high + r.medium + r.low
  }

  function SeveritySum(t: Severities): nat {
    t.critical + t.high + t.medium + t.low
  }

  /** Whether the finding's severity has counters of its own. */
  function Ranked(f: Finding): nat {
    if Failed(f) && f.severity != Unranked then 1 else 0
  }

  /** A failed finding moves the category counts by one and, if its severity is ranked, one severity total and one
      counter of the row by one; a finding that has not failed moves nothing. */
  lemma MovesAtMostOne(f: Finding, row: DeviceRow, totals: Severities, categories: map<string, nat>)
    ensures RowSum(AddToRow(row, f)) == RowSum(row) + Ranked(f) && AddToRow(row, f).run == row.run
    ensures SeveritySum(AddSeverity(totals, f)) == SeveritySum(totals) + Ranked(f)
    ensures Total(AfterFinding(categories, f)) == Total(categories) + if Failed(f) then 1 else 0
    ensures !Failed(f) ==>
              AddToRow(row, f) == row && AddSeverity(totals, f) == totals && AfterFinding(categories, f) == categories
  {
    TotalUpdate(categories, f.domain, (if f.domain in categories then categories[f.domain] else 0) + 1);
  }

  /** Which counters a failed finding moves: its own severity's total, the counter of the row that stands for that
      severity, critical and high sharing one, and the count of its own category. */
  lemma MovesItsOwn(f: Finding, row: DeviceRow, totals: Severities, categories: map<string, nat>)
    requires f.status == Fail
    ensures AddSeverity(totals, f)
            == match f.severity
               case CriticalSeverity => totals.(critical := totals.critical + 1)
               case HighSeverity => totals.(high := totals.high + 1)
               case MediumSeverity => totals.(medium := totals.medium + 1)
               case LowSeverity => totals.(low := totals.low + 1)
               case Unranked => totals
    ensures AddToRow(row, f)
            == match f.severity
               case CriticalSeverity => row.(high := row.high + 1)
               case HighSeverity => row.(high := row.high + 1)
               case MediumSeverity => row.(medium := row.medium + 1)
               case LowSeverity => row.(low := row.low + 1)
               case Unranked => row
    ensures forall d :: (if d in AfterFinding(categories, f) then AfterFinding(categories, f)[d] else 0)
                        == (if d in categories then categories[d] else 0) + if d == f.domain then 1 else 0
  {
  }

  /** One finding, counted. */
  method CountFinding(f: Finding, row: DeviceRow, totals: Severities, categories: map<string, nat>)
    returns (counted: DeviceRow, after: Severities, tallies: map<string, nat>)
    ensures counted == AddToRow(row, f) && after == AddSeverity(totals, f) && tallies == AfterFinding(categories, f)
  {
    counted, after, tallies := row, totals, categories;
    if f.status != Fail {
      return;
    }
    if f.severity == CriticalSeverity || f.severity == HighSeverity {
      counted := counted.(high := counted.high + 1);
    } else if f.severity == MediumSeverity {
      counted := counted.(medium := counted.medium + 1);
    } else if f.severity == LowSeverity {
      counted := counted.(low := counted.low + 1);
    }
    if f.severity != Unranked {
      after := AddSeverity(after, f);
    }
    tallies := AddCategory(tallies, f.domain);
  }

  /** The findings of one run: its row, and the running totals. */
  method CountRun(run: nat, findings: seq<Finding>, totals: Severities, categories: map<string, nat>,
      ghost seen: seq<Finding>)
    returns (row: DeviceRow, after: Severities, tallies: map<string, nat>)
    requires totals == SeverityCounts(seen) && categories == CategoriesOf(seen)
    ensures after == SeverityCounts(seen + findings) && tallies == CategoriesOf(seen + findings)
    ensures row == RowOf(run, findings)
  {
    row, after, tallies := DeviceRow(run, 0, 0, 0), totals, categories;
    ghost var all := seen;
    for i := 0 to |findings|
      invariant all == seen + findings[..i]
      invariant after == SeverityCounts(all) && tallies == CategoriesOf(all) && row == RowOf(run, findings[..i])
    {
      OneMore(run, all, findings[..i], findings[i]);
      assert findings[..i + 1] == findings[..i] + [findings[i]];
      row, after, tallies := CountFinding(findings[i], row, after, tallies);
      all := all + [findings[i]];
    }
    assert findings[..|findings|] == findings;
  }

  lemma OneMore(run: nat, all: seq<Finding>, mine: seq<Finding>, f: Finding)
    ensures SeverityCounts(all + [f]) == AddSeverity(SeverityCounts(all), f)
    ensures CategoriesOf(all + [f]) == AfterFinding(CategoriesOf(all), f)
    ensures RowOf(run, mine + [f]) == AddToRow(RowOf(run, mine), f)
  {
    SeverityMore(all, f);
    RowMore(run, mine, f);
    assert (all + [f])[..|all|] == all;
  }

  function Rows(runs: seq<nat>, findings: seq<Finding>): seq<DeviceRow> {
    if runs == [] then []
    else Rows(runs[..|runs| - 1], findings) + [RowOf(runs[|runs| - 1], ByRun(findings, runs[|runs| - 1]))]
  }

  /** Each run has its own row, in order, counting that run's findings only. */
  lemma {:induction false} RowsExact(runs: seq<nat>, findings: seq<Finding>, k: nat)
    requires k < |runs|
    ensures |Rows(runs, findings)| == |runs| && Rows(runs, findings)[k] == RowOf(runs[k], ByRun(findings, runs[k]))
    ensures forall f :: f in ByRun(findings, runs[k]) <==> f in findings && f.run == runs[k]
  {
    var n := |runs| - 1;
    if k < n {
      RowsExact(runs[..n], findings, k);
    } else {
      RowsLength(runs[..n], findings);
      ByRunExact(findings, runs[k]);
    }
  }

  lemma {:induction false} RowsLength(runs: seq<nat>, findings: seq<Finding>)
    ensures |Rows(runs, findings)| == |runs|
  {
    if runs != [] {
      RowsLength(runs[..|runs| - 1], findings);
    }
  }

  lemma {:induction false} ByRunExact(findings: seq<Finding>, run: nat)
    ensures forall f :: f in ByRun(findings, run) <==> f in findings && f.run == run
  {
    if findings != [] {
      var n := |findings| - 1;
      ByRunExact(findings[..n], run);
      assert findings == findings[..n] + [findings[n]];
    }
  }

  /** `get_audit_batch_summary`: one row a run, and over all of them everything adds up. */
  method Summarise(runs: seq<nat>, findings: seq<Finding>)
    returns (rows: seq<DeviceRow>, totals: Severities, categories: map<string, nat>)
    requires Distinct(runs) && forall f :: f in findings ==> f.run in runs
    ensures rows == Rows(runs, findings)
    ensures Tallied(findings, totals, categories)
    ensures Sum(rows, HighOf) == totals.critical + totals.high
    ensures Sum(rows, MediumOf) == totals.medium && Sum(rows, LowOf) == totals.low
    ensures totals.critical + totals.high + totals.medium + totals.low <= Total(categories) == Count(findings, Failed)
  {
    var groups := GroupByRun(findings);
    rows, totals, categories := [], Severities(0, 0, 0, 0), map[];
    for i := 0 to |runs|
      invariant rows == Rows(runs[..i], findings)
      invariant totals == SeverityCounts(Visited(runs[..i], findings))
      invariant categories == CategoriesOf(Visited(runs[..i], findings))
    {
      var run := runs[i];
      assert runs[..i + 1][..i] == runs[..i];
      var mine := if run in groups then groups[run] else [];
      var row;
      row, totals, categories := CountRun(run, mine, totals, categories, Visited(runs[..i], findings));
      rows := rows + [row];
    }
    assert runs[..|runs|] == runs;
    CountedUp(Visited(runs, findings));
    AllVisited(runs, findings, totals, categories);
    RowsAddUp(runs, findings);
    SeveritiesWithin(findings);
  }

  lemma AllVisited(runs: seq<nat>, findings: seq<Finding>, totals: Severities, categories: map<string, nat>)
    requires Distinct(runs) && forall f :: f in findings ==> f.run in runs
    requires Tallied(Visited(runs, findings), totals, categories)
    ensures Tallied(findings, totals, categories)
  {
    VisitsEach(runs, findings, Critical);
    VisitsEach(runs, findings, High);
    VisitsEach(runs, findings, Medium);
    VisitsEach(runs, findings, Low);
    VisitsEach(runs, findings, Failed);
    forall d
      ensures Count(Visited(runs, findings), InDomain(d)) == Count(findings, InDomain(d))
    {
      VisitsEach(runs, findings, InDomain(d));
    }
  }

  lemma {:induction false} RowsCount(runs: seq<nat>, findings: seq<Finding>)
    ensures Sum(Rows(runs, findings), HighOf) == Count(Visited(runs, findings), Severe)
    ensures Sum(Rows(runs, findings), MediumOf) == Count(Visited(runs, findings), Medium)
    ensures Sum(Rows(runs, findings), LowOf) == Count(Visited(runs, findings), Low)
  {
    if runs != [] {
      var n := |runs| - 1;
      RowsCount(runs[..n], findings);
      assert Rows(runs, findings)[..|Rows(runs, findings)| - 1] == Rows(runs[..n], findings);
      CountConcat(Visited(runs[..n], findings), ByRun(findings, runs[n]), Severe);
      CountConcat(Visited(runs[..n], findings), ByRun(findings, runs[n]), Medium);
      CountConcat(Visited(runs[..n], findings), ByRun(findings, runs[n]), Low);
    }
  }

  /** The rows of the devices add up to the totals of the findings. */
  lemma RowsAddUp(runs: seq<nat>, findings: seq<Finding>)
    requires Distinct(runs) && forall f :: f in findings ==> f.run in runs
    ensures var rows, totals := Rows(runs, findings), SeverityCounts(findings);
            && Sum(rows, HighOf) == totals.critical + totals.high
            && Sum(rows, MediumOf) == totals.medium && Sum(rows, LowOf) == totals.low
  {
    RowsCount(runs, findings);
    VisitsEach(runs, findings, Severe);
    VisitsEach(runs, findings, Medium);
    VisitsEach(runs, findings, Low);
    SevereSplits(findings);
  }

  lemma {:induction false} SevereSplits(findings: seq<Finding>)
    ensures Count(findings, Severe) == Count(findings, Critical) + Count(findings, High)
  {
    if findings != [] {
      SevereSplits(findings[..|findings| - 1]);
    }
  }

  lemma {:induction false} SeveritiesWithin(findings: seq<Finding>)
    ensures Count(findings, Critical) + Count(findings, High) + Count(findings, Medium) + Count(findings, Low)
            <= Count(findings, Failed)
  {
    if findings != [] {
      SeveritiesWithin(findings[..|findings| - 1]);
    }
  }

  /* ---------- Compliance: overview and detail ---------- */

  datatype Result = Result(framework: string, control: string, status: Status)

  datatype Counts = Counts(pass: nat, fail: nat, manual: nat)

  function About(framework: string, control: string, status: Status): Result -> bool {
    (r: Result) => r == Result(framework, control, status)
  }

  /** The three device counts of a control, over all results. */
  function CountsOf(rows: seq<Result>, framework: string, control: string): Counts {
    Counts(Count(rows, About(framework, control, Pass)), Count(rows, About(framework, control, Fail)),
           Count(rows, About(framework, control, ManualReview)))
  }

  function StatusOf(c: Counts): Status {
    if c.fail > 0 then Fail else if c.manual > 0 then ManualReview else if c.pass > 0 then Pass else NotApplicable
  }

  function Add(c: Counts, status: Status): Counts {
    if status == Pass then c.(pass := c.pass + 1)
    else if status == Fail then c.(fail := c.fail + 1)
    else if status == ManualReview then c.(manual := c.manual + 1)
    else c
  }

  lemma CountsMore(rows: seq<Result>, r: Result, framework: string, control: string)
    ensures CountsOf(rows + [r], framework, control)
            == if r.framework == framework && r.control == control
               then Add(CountsOf(rows, framework, control), r.status)
               else CountsOf(rows, framework, control)
  {
  }

  type Overview = map<string, map<string, Counts>>

  predicate Shows(o: Overview, framework: string, control: string) {
    framework in o && control in o[framework]
  }

  /** Results counted one more: a control seen for the first time starts from zero. */
  function Recorded(o: Overview, r: Result): Overview {
    var controls := if r.framework in o then o[r.framework] else map[];
    var counts := if r.control in controls then controls[r.control] else Counts(0, 0, 0);
    o[r.framework := controls[r.control := Add(counts, r.status)]]
  }

  function Shown(o: Overview, framework: string, control: string): Counts {
    if Shows(o, framework, control) then o[framework][control] else Counts(0, 0, 0)
  }

  /** `get_compliance_overview`: the controls shown are those with a result, each with its counts. */
  method OverviewCounts(rows: seq<Result>) returns (acc: Overview)
    ensures forall f, c :: Shows(acc, f, c) <==> Concerned(rows, f, c)
    ensures forall f, c :: Shows(acc, f, c) ==> acc[f][c] == CountsOf(rows, f, c)
  {
    acc := map[];
    for i := 0 to |rows|
      invariant forall f, c :: Shows(acc, f, c) <==> Concerned(rows[..i], f, c)
      invariant forall f, c :: Shown(acc, f, c) == CountsOf(rows[..i], f, c)
    {
      var row := rows[i];
      ghost var before := acc;
      var controls := if row.framework in acc then acc[row.framework] else map[];
      var counts := if row.control in controls then controls[row.control] else Counts(0, 0, 0);
      acc := acc[row.framework := controls[row.control := Add(counts, row.status)]];
      assert rows[..i + 1] == rows[..i] + [row];
      forall f, c
        ensures Shows(acc, f, c) <==> Concerned(rows[..i + 1], f, c)
        ensures Shown(acc, f, c) == CountsOf(rows[..i + 1], f, c)
      {
        RecordedMore(before, rows[..i], row, f, c);
      }
    }
    assert rows[..|rows|] == rows;
  }

  ghost predicate Concerned(rows: seq<Result>, framework: string, control: string) {
    exists r :: r in rows && r.framework == framework && r.control == control
  }

  lemma RecordedMore(o: Overview, rows: seq<Result>, r: Result, f: string, c: string)
    requires Shows(o, f, c) <==> Concerned(rows, f, c)
    requires Shown(o, f, c) == CountsOf(rows, f, c)
    ensures Shows(Recorded(o, r), f, c) <==> Concerned(rows + [r], f, c)
    ensures Shown(Recorded(o, r), f, c) == CountsOf(rows + [r], f, c)
  {
    CountsMore(rows, r, f, c);
    assert r in rows + [r];
    if Concerned(rows, f, c) {
      var x :| x in rows && x.framework == f && x.control == c;
      assert x in rows + [r];
    }
  }

  /** `get_compliance_control_detail`: counts over the results of one control. */
  method Detail(rows: seq<Result>, framework: string, control: string) returns (counts: Counts, status: Status)
    ensures counts == CountsOf(rows, framework, control) && status == StatusOf(counts)
  {
    counts := Counts(0, 0, 0);
    for i := 0 to |rows|
      invariant counts == CountsOf(rows[..i], framework, control)
    {
      CountsMore(rows[..i], rows[i], framework, control);
      assert rows[..i + 1] == rows[..i] + [rows[i]];
      if rows[i].framework == framework && rows[i].control == control {
        counts := Add(counts, rows[i].status);
      }
    }
    assert rows[..|rows|] == rows;
    status := StatusOf(counts);
  }

  datatype ControlCounts = ControlCounts(control: string, counts: Counts)

  function Having(status: Status): ControlCounts -> bool {
    (c: ControlCounts) => StatusOf(c.counts) == status
  }

  datatype Tally = Tally(passing: nat, failing: nat, manual: nat)

  function TallyOf(controls: seq<ControlCounts>): Tally {
    Tally(Count(controls, Having(Pass)), Count(controls, Having(Fail)), Count(controls, Having(ManualReview)))
  }

  lemma TallyNext(controls: seq<ControlCounts>, c: ControlCounts)
    ensures var t, status := TallyOf(controls), StatusOf(c.counts);
            TallyOf(controls + [c]) == if status == Pass then t.(passing := t.passing + 1)
                                       else if status == Fail then t.(failing := t.failing + 1)
                                       else if status == ManualReview then t.(manual := t.manual + 1)
                                       else t
  {
    CountMore(controls, c, Having(Pass));
    CountMore(controls, c, Having(Fail));
    CountMore(controls, c, Having(ManualReview));
  }

  /** The overview's second pass over the controls of one framework: every status, and how many have each. */
  method FrameworkStatuses(controls: seq<ControlCounts>)
    returns (statuses: seq<Status>, passing: nat, failing: nat, manual: nat)
    ensures |statuses| == |controls| && forall k :: 0 <= k < |controls| ==> statuses[k] == StatusOf(controls[k].counts)
    ensures Tally(passing, failing, manual) == TallyOf(controls)
  {
    statuses, passing, failing, manual := [], 0, 0, 0;
    for i := 0 to |controls|
      invariant |statuses| == i && forall k :: 0 <= k < i ==> statuses[k] == StatusOf(controls[k].counts)
      invariant Tally(passing, failing, manual) == TallyOf(controls[..i])
    {
      var counts, status := controls[i].counts, NotApplicable;
      TallyNext(controls[..i], controls[i]);
      assert controls[..i + 1] == controls[..i] + [controls[i]];
      if counts.fail > 0 {
        status := Fail;
        failing := failing + 1;
      } else if counts.manual > 0 {
        status := ManualReview;
        manual := manual + 1;
      } else if counts.pass > 0 {
        status := Pass;
        passing := passing + 1;
      }
      statuses := statuses + [status];
    }
    assert controls[..|controls|] == controls;
  }

  /** The reported status is the worst recorded one: failed if any result of the control failed, otherwise due for
      review if any is, otherwise passed if any passed, and otherwise not applicable. */
  lemma WorstWins(rows: seq<Result>, framework: string, control: string)
    ensures var s := StatusOf(CountsOf(rows, framework, control));
            var failed := Result(framework, control, Fail) in rows;
            var review := Result(framework, control, ManualReview) in rows;
            var passed := Result(framework, control, Pass) in rows;
            && (s == Fail <==> failed)
            && (s == ManualReview <==> review && !failed)
            && (s == Pass <==> passed && !review && !failed)
            && (s == NotApplicable <==> !passed && !review && !failed)
  {
    Counted(rows, framework, control, Fail);
    Counted(rows, framework, control, ManualReview);
    Counted(rows, framework, control, Pass);
  }

  lemma Counted(rows: seq<Result>, framework: string, control: string, status: Status)
    ensures Count(rows, About(framework, control, status)) > 0 <==> Result(framework, control, status) in rows
  {
    if Result(framework, control, status) in rows {
      SomeCounted(rows, About(framework, control, status), Result(framework, control, status));
    }
    if Count(rows, About(framework, control, status)) > 0 {
      var r := CountedSome(rows, About(framework, control, status));
    }
  }

  lemma {:induction false} SomeCounted<T>(s: seq<T>, p: T -> bool, x: T)
    requires x in s && p(x)
    ensures Count(s, p) > 0
  {
    var n := |s| - 1;
    if x != s[n] {
      assert s == s[..n] + [s[n]];
      SomeCounted(s[..n], p, x);
    }
  }

  lemma {:induction false} CountedSome<T>(s: seq<T>, p: T -> bool) returns (x: T)
    requires Count(s, p) > 0
    ensures x in s && p(x)
  {
    var n := |s| - 1;
    if p(s[n]) {
      x := s[n];
    } else {
      x := CountedSome(s[..n], p);
    }
  }
}
