/**
 * `build_month_stats`: for every month of a year, how many listed tasks are
 * done and how many are listed at all.
 */
module Stats {
  import opened Wrappers
  import opened Model
  import opened Tracker

  /** The tasks the statistics count for a month: listed, and of the company when one is chosen. */
  function Counted(tasks: map<int, Task>, companies: map<int, Company>, month: int, company: Option<int>): set<int> {
    ForCompany(tasks, DueTasks(tasks, companies, month), company)
  }

  /** The expected (done, total) pair of a month. */
  function MonthRow(items: map<int, Item>, tasks: map<int, Task>, companies: map<int, Company>, c: map<Key, int>,
                    company: Option<int>, year: int, month: int): (nat, nat)
  {
    var ts := Counted(tasks, companies, month, company);
    (|DoneAmong(items, c, ts, year, month)|, |ts|)
  }

  /** No month reports more done tasks than tasks. */
  lemma MonthRowBounded(items: map<int, Item>, tasks: map<int, Task>, companies: map<int, Company>, c: map<Key, int>,
                        company: Option<int>, year: int, month: int)
    ensures var row := MonthRow(items, tasks, companies, c, company, year, month); 0 <= row.0 <= row.1
  {
    DoneAmongBounded(items, c, Counted(tasks, companies, month, company), year, month);
  }

  /** The records the statistics of a year create: every item of every counted task, for its month. */
  function YearKeys(items: map<int, Item>, tasks: map<int, Task>, companies: map<int, Company>,
                    company: Option<int>, year: int, upto: int): set<Key>
  {
    set m, i | 1 <= m < upto && i in items && items[i].taskId in Counted(tasks, companies, m, company) :: (i, year, m)
  }

  lemma YearKeysAdd(items: map<int, Item>, tasks: map<int, Task>, companies: map<int, Company>,
                    company: Option<int>, year: int, month: int)
    requires 1 <= month
    ensures YearKeys(items, tasks, companies, company, year, month + 1) ==
      YearKeys(items, tasks, companies, company, year, month) +
      ItemPeriodKeys(items, Counted(tasks, companies, month, company), year, month)
  {
  }

  /** The body of the month loop: list the month's tasks, filter them by company, and count. */
  method MonthStat(s: Store, year: int, month: int, company: Option<int>) returns (done: nat, total: nat)
    requires s.Valid()
    modifies s`completions
    ensures s.Valid()
    ensures (done, total) == MonthRow(s.items, s.tasks, s.companies, old(s.completions), company, year, month)
    ensures s.completions ==
      Materialize(old(s.completions), ItemPeriodKeys(s.items, Counted(s.tasks, s.companies, month, company), year, month))
  {
    var listed := s.TasksForMonth(month);
    var ts := Filtered(s.tasks, listed, company);
    FilteredSpec(s.tasks, s.companies, listed, month, company);
    total := |ts|;
    DistinctCard(ts);
    done := CountDone(s, ts, year, month);
  }

  /** The listing after the optional company filter. */
  function Filtered(tasks: map<int, Task>, listed: seq<int>, company: Option<int>): seq<int> {
    if company.Some? then OfCompany(tasks, listed, company.value) else listed
  }

  /** Filtering a duplicate-free listing of the month's tasks gives the counted tasks, without duplicates. */
  lemma FilteredSpec(tasks: map<int, Task>, companies: map<int, Company>, listed: seq<int>, month: int, company: Option<int>)
    requires Distinct(listed)
    requires forall t :: t in listed <==> t in DueTasks(tasks, companies, month)
    ensures Members(Filtered(tasks, listed, company)) == Counted(tasks, companies, month, company)
    ensures Distinct(Filtered(tasks, listed, company))
  {
    if company.Some? {
      OfCompanyMembers(tasks, listed, company.value);
      OfCompanyDistinct(tasks, listed, company.value);
    }
    var ts := Filtered(tasks, listed, company);
    forall x ensures x in Members(ts) <==> x in Counted(tasks, companies, month, company) {
    }
  }

  /** The inner loop: for each task, count its incomplete items and list them; count it as done when it has items and none is incomplete. */
  method CountDone(s: Store, ts: seq<int>, year: int, month: int) returns (done: nat)
    requires s.Valid()
    requires Distinct(ts)
    modifies s`completions
    ensures s.Valid()
    ensures done == |DoneAmong(s.items, old(s.completions), Members(ts), year, month)|
    ensures s.completions == Materialize(old(s.completions), ItemPeriodKeys(s.items, Members(ts), year, month))
  {
    var total := |ts|;
    done := 0;
    assert s.completions == Materialize(old(s.completions), ItemPeriodKeys(s.items, Members(ts[..0]), year, month));
    for j := 0 to |ts|
      invariant s.Valid()
      invariant done == |DoneAmong(s.items, old(s.completions), Members(ts[..j]), year, month)|
      invariant s.completions == Materialize(old(s.completions), ItemPeriodKeys(s.items, Members(ts[..j]), year, month))
    {
      var t := ts[j];
      ghost var seen := Members(ts[..j]);
      DistinctNotBefore(ts, j);
      MembersSnoc(ts, j);
      CountStep(s.items, old(s.completions), seen, t, year, month);
      var incomplete := s.IncompleteCount(t, year, month);
      var rows := s.ItemsWithCompletion(t, year, month);
      if total > 0 && |rows| > 0 && incomplete == 0 {
        done := done + 1;
      }
    }
    assert ts[..|ts|] == ts;
  }

  /** What one task of the inner loop adds: its records, and one to the count when it is done. */
  lemma CountStep(items: map<int, Item>, c: map<Key, int>, seen: set<int>, t: int, year: int, month: int)
    requires t !in seen
    ensures var before := Materialize(c, ItemPeriodKeys(items, seen, year, month));
      var ks := PeriodKeys(TaskItemIds(items, t), year, month);
      Materialize(Materialize(before, ks), ks) == Materialize(c, ItemPeriodKeys(items, seen + {t}, year, month)) &&
      IncompleteIds(items, before, t, year, month) == IncompleteIds(items, c, t, year, month) &&
      |AnnotatedChecklist(items, Materialize(before, ks), t, year, month)| == |TaskItemIds(items, t)| &&
      |DoneAmong(items, c, seen + {t}, year, month)| ==
        |DoneAmong(items, c, seen, year, month)| + (if IsDone(items, c, t, year, month) then 1 else 0)
  {
    var before := Materialize(c, ItemPeriodKeys(items, seen, year, month));
    var ks := PeriodKeys(TaskItemIds(items, t), year, month);
    MaterializeTwice(before, ks, ks);
    MaterializeTwice(c, ItemPeriodKeys(items, seen, year, month), ks);
    ItemPeriodKeysAdd(items, seen, t, year, month);
    IncompleteIdsOfMaterialized(items, c, ItemPeriodKeys(items, seen, year, month), t, year, month);
    AnnotatedChecklistSize(items, Materialize(before, ks), t, year, month);
    DoneAmongAdd(items, c, seen, t, year, month);
  }

  /** A duplicate-free listing has as many members as entries. */
  lemma {:induction false} DistinctCard(ts: seq<int>)
    requires Distinct(ts)
    ensures |Members(ts)| == |ts|
  {
    if ts != [] {
      var n := |ts| - 1;
      assert ts[..n + 1] == ts;
      MembersSnoc(ts, n);
      DistinctNotBefore(ts, n);
      DistinctCard(ts[..n]);
    }
  }

  lemma DistinctNotBefore(ts: seq<int>, j: nat)
    requires j < |ts| && Distinct(ts)
    ensures ts[j] !in Members(ts[..j])
  {
    forall x | x in ts[..j] ensures x != ts[j] {
      var k :| 0 <= k < j && ts[..j][k] == x;
      assert ts[k] == x;
    }
  }

  /** The expected rows of the months before `upto`. */
  function Rows(items: map<int, Item>, tasks: map<int, Task>, companies: map<int, Company>, c: map<Key, int>,
                company: Option<int>, year: int, upto: int): map<int, (nat, nat)>
  {
    map m | 1 <= m < upto :: MonthRow(items, tasks, companies, c, company, year, m)
  }

  /**
   * `build_month_stats`: for each month 1..12 the pair (done, total), where
   * total counts every listed task of the chosen company and done only those
   * with at least one item and no incomplete item.
   */
  method BuildMonthStats(s: Store, year: int, company: Option<int>) returns (stats: map<int, (nat, nat)>)
    requires s.Valid()
    modifies s`completions
    ensures s.Valid()
    ensures forall m :: m in stats <==> 1 <= m <= 12
    ensures forall m :: 1 <= m <= 12 ==> stats[m] == MonthRow(s.items, s.tasks, s.companies, old(s.completions), company, year, m)
    ensures forall m :: 1 <= m <= 12 ==> 0 <= stats[m].0 <= stats[m].1
    ensures s.completions == Materialize(old(s.completions), YearKeys(s.items, s.tasks, s.companies, company, year, 13))
  {
    ghost var c0 := s.completions;
    stats := map[];
    assert YearKeys(s.items, s.tasks, s.companies, company, year, 1) == {};
    assert stats == Rows(s.items, s.tasks, s.companies, c0, company, year, 1);
    for month := 1 to 13
      invariant s.Valid()
      invariant stats == Rows(s.items, s.tasks, s.companies, c0, company, year, month)
      invariant s.completions == Materialize(c0, YearKeys(s.items, s.tasks, s.companies, company, year, month))
    {
      var done, total := MonthStat(s, year, month, company);
      MonthStep(s.items, s.tasks, s.companies, c0, company, year, month);
      stats := stats[month := (done, total)];
    }
    forall m | 1 <= m <= 12 ensures 0 <= stats[m].0 <= stats[m].1 {
      MonthRowBounded(s.items, s.tasks, s.companies, c0, company, year, m);
    }
  }

  /** What one month of the outer loop adds: its records, and its row, which reads the same as on the original ledger. */
  lemma MonthStep(items: map<int, Item>, tasks: map<int, Task>, companies: map<int, Company>, c: map<Key, int>,
                  company: Option<int>, year: int, month: int)
    requires 1 <= month
    ensures var ks := YearKeys(items, tasks, companies, company, year, month);
      MonthRow(items, tasks, companies, Materialize(c, ks), company, year, month) ==
        MonthRow(items, tasks, companies, c, company, year, month) &&
      Materialize(Materialize(c, ks), ItemPeriodKeys(items, Counted(tasks, companies, month, company), year, month)) ==
        Materialize(c, YearKeys(items, tasks, companies, company, year, month + 1)) &&
      Rows(items, tasks, companies, c, company, year, month + 1) ==
        Rows(items, tasks, companies, c, company, year, month)[month := MonthRow(items, tasks, companies, c, company, year, month)]
  {
    var ks := YearKeys(items, tasks, companies, company, year, month);
    var ts := Counted(tasks, companies, month, company);
    DoneAmongOfMaterialized(items, c, ks, ts, year, month);
    MaterializeTwice(c, ks, ItemPeriodKeys(items, ts, year, month));
    YearKeysAdd(items, tasks, companies, company, year, month);
    RowsAdd(items, tasks, companies, c, company, year, month);
  }

  lemma RowsAdd(items: map<int, Item>, tasks: map<int, Task>, companies: map<int, Company>, c: map<Key, int>,
                company: Option<int>, year: int, month: int)
    requires 1 <= month
    ensures Rows(items, tasks, companies, c, company, year, month + 1) ==
      Rows(items, tasks, companies, c, company, year, month)[month := MonthRow(items, tasks, companies, c, company, year, month)]
  {
  }
}
