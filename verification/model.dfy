/**
 * The records of the inspection tracker and the value-level facts about
 * them: the period completion ledger keyed by (item, year, month), the
 * per-task incomplete count, the due filter of a month, and the order of a
 * task's checklist.
 */
module Model {
  import opened Wrappers
  import opened Schedule

  datatype Company = Company(name: string, subName: Option<string>)

  datatype Task = Task(
    companyId: int,
    taskType: string,
    signatureMethod: string,
    scheduleType: string,
    scheduleDetail: Option<string>,
    contactName: Option<string>,
    contactPhone: Option<string>,
    contactEmail: Option<string>,
    detailName: Option<string>,
    active: bool)

  datatype Item = Item(taskId: int, description: string, attachment: Option<string>, orderNum: int)

  /** The unique key of a period completion record: (item, year, month). */
  type Key = (int, int, int)

  /** A checklist item as listed for a period, with its completion status. */
  datatype Annotated = Annotated(id: int, item: Item, completed: int)

  // ---------------------------------------------------------------------------
  // The completion ledger

  /** The status a period reads as: the stored value, or 0 when no record exists yet. */
  function Status(c: map<Key, int>, k: Key): int {
    if k in c then c[k] else 0
  }

  /** Every stored status is 0 or 1. */
  ghost predicate Binary(c: map<Key, int>) {
    forall k :: k in c ==> c[k] == 0 || c[k] == 1
  }

  /** The ledger after a default record of 0 has been created for every key of `ks` that had none. */
  function Materialize(c: map<Key, int>, ks: set<Key>): (r: map<Key, int>)
    ensures r.Keys == c.Keys + ks
  {
    map k | k in c.Keys + ks :: if k in c then c[k] else 0
  }

  /** Creating default records never changes how any period reads. */
  lemma MaterializeKeepsStatus(c: map<Key, int>, ks: set<Key>, k: Key)
    ensures Status(Materialize(c, ks), k) == Status(c, k)
    ensures k in c ==> Materialize(c, ks)[k] == c[k]
  {
  }

  lemma MaterializeKeepsBinary(c: map<Key, int>, ks: set<Key>)
    requires Binary(c)
    ensures Binary(Materialize(c, ks))
  {
  }

  /** Materializing twice is materializing once for both key sets. */
  lemma MaterializeTwice(c: map<Key, int>, a: set<Key>, b: set<Key>)
    ensures Materialize(Materialize(c, a), b) == Materialize(c, a + b)
  {
    var l, r := Materialize(Materialize(c, a), b), Materialize(c, a + b);
    assert l.Keys == r.Keys;
    forall k | k in l.Keys ensures l[k] == r[k] {
    }
  }

  /** The value the toggle writes: 1 becomes 0, anything else becomes 1. */
  function Flip(v: int): int {
    if v == 1 then 0 else 1
  }

  /** The ledger after toggling `k`. */
  function Toggled(c: map<Key, int>, k: Key): (r: map<Key, int>)
    ensures r.Keys == c.Keys + {k}
    ensures Status(r, k) == Flip(Status(c, k))
    ensures forall j :: j in c && j != k ==> r[j] == c[j]
  {
    c[k := Flip(Status(c, k))]
  }

  /** A toggle always changes how the period reads, and keeps the ledger 0/1. */
  lemma ToggleFlips(c: map<Key, int>, k: Key)
    requires Binary(c)
    ensures Status(Toggled(c, k), k) == 1 - Status(c, k)
    ensures Binary(Toggled(c, k))
  {
  }

  /** Toggling the same period twice restores its status; only the default record remains. */
  lemma ToggleTwice(c: map<Key, int>, k: Key)
    requires Binary(c)
    ensures Toggled(Toggled(c, k), k) == Materialize(c, {k})
    ensures k in c ==> Toggled(Toggled(c, k), k) == c
  {
    var l, r := Toggled(Toggled(c, k), k), Materialize(c, {k});
    assert l.Keys == r.Keys;
    forall j | j in l.Keys ensures l[j] == r[j] {
    }
    if k in c {
      assert r == c;
    }
  }

  /** A toggle changes no other period. */
  lemma ToggleLocal(c: map<Key, int>, k: Key, j: Key)
    requires j != k
    ensures j in Toggled(c, k) <==> j in c
    ensures Status(Toggled(c, k), j) == Status(c, j)
  {
  }

  /** The ledger without any record of the items `ids`. */
  function Forget(c: map<Key, int>, ids: set<int>): (r: map<Key, int>)
    ensures forall k :: k in r <==> k in c && k.0 !in ids
    ensures forall k :: k in r ==> r[k] == c[k]
  {
    map k | k in c && k.0 !in ids :: c[k]
  }

  // ---------------------------------------------------------------------------
  // Per-task aggregation

  /** The ids of the checklist items of task `t`. */
  function TaskItemIds(items: map<int, Item>, t: int): set<int> {
    set i | i in items && items[i].taskId == t
  }

  /** The period keys of `ids` for one year and month. */
  function PeriodKeys(ids: set<int>, year: int, month: int): set<Key> {
    set i | i in ids :: (i, year, month)
  }

  /** Adding one item adds its one key. */
  lemma PeriodKeysAdd(ids: set<int>, i: int, year: int, month: int)
    ensures PeriodKeys(ids + {i}, year, month) == PeriodKeys(ids, year, month) + {(i, year, month)}
  {
  }

  /** Visiting one more item: its record is created and it reads as before. */
  lemma MaterializeStep(c: map<Key, int>, visited: set<int>, i: int, year: int, month: int)
    ensures Materialize(Materialize(c, PeriodKeys(visited, year, month)), {(i, year, month)}) ==
      Materialize(c, PeriodKeys(visited + {i}, year, month))
    ensures Status(Materialize(c, PeriodKeys(visited, year, month)), (i, year, month)) == Status(c, (i, year, month))
  {
    MaterializeTwice(c, PeriodKeys(visited, year, month), {(i, year, month)});
    PeriodKeysAdd(visited, i, year, month);
  }

  /** The items of task `t` whose period reads as not completed. */
  function IncompleteIds(items: map<int, Item>, c: map<Key, int>, t: int, year: int, month: int): set<int> {
    set i | i in items && items[i].taskId == t && Status(c, (i, year, month)) == 0
  }

  /** The ids among `ids` whose period reads as not completed. */
  function ZeroAmong(ids: set<int>, c: map<Key, int>, year: int, month: int): set<int> {
    set i | i in ids && Status(c, (i, year, month)) == 0
  }

  /** Visiting one more item adds it to the incomplete ones exactly when it reads 0. */
  lemma ZeroAmongAdd(ids: set<int>, i: int, c: map<Key, int>, year: int, month: int)
    requires i !in ids
    ensures ZeroAmong(ids + {i}, c, year, month) ==
      ZeroAmong(ids, c, year, month) + (if Status(c, (i, year, month)) == 0 then {i} else {})
    ensures |ZeroAmong(ids + {i}, c, year, month)| ==
      |ZeroAmong(ids, c, year, month)| + (if Status(c, (i, year, month)) == 0 then 1 else 0)
  {
    assert ZeroAmong(ids + {i}, c, year, month) ==
      ZeroAmong(ids, c, year, month) + (if Status(c, (i, year, month)) == 0 then {i} else {});
  }

  lemma IncompleteIdsAsZeroAmong(items: map<int, Item>, c: map<Key, int>, t: int, year: int, month: int)
    ensures IncompleteIds(items, c, t, year, month) == ZeroAmong(TaskItemIds(items, t), c, year, month)
  {
  }

  /** A task is done for a period when it has items and none is incomplete. */
  predicate IsDone(items: map<int, Item>, c: map<Key, int>, t: int, year: int, month: int) {
    |TaskItemIds(items, t)| > 0 && |IncompleteIds(items, c, t, year, month)| == 0
  }

  /** A task is overdue for a period when its incomplete count is positive. */
  predicate IsOverdue(incomplete: int) {
    incomplete > 0
  }

  /** The incomplete count never exceeds the number of items. */
  lemma IncompleteBounded(items: map<int, Item>, c: map<Key, int>, t: int, year: int, month: int)
    ensures IncompleteIds(items, c, t, year, month) <= TaskItemIds(items, t)
    ensures |IncompleteIds(items, c, t, year, month)| <= |TaskItemIds(items, t)|
  {
    SubsetCardinality(IncompleteIds(items, c, t, year, month), TaskItemIds(items, t));
  }

  lemma SubsetCardinality<T>(a: set<T>, b: set<T>)
    requires a <= b
    ensures |a| <= |b|
  {
    assert b == a + (b - a);
  }

  /** A task without items is never overdue and never done. */
  lemma EmptyTaskNeitherOverdueNorDone(items: map<int, Item>, c: map<Key, int>, t: int, year: int, month: int)
    requires TaskItemIds(items, t) == {}
    ensures !IsOverdue(|IncompleteIds(items, c, t, year, month)|)
    ensures !IsDone(items, c, t, year, month)
  {
    IncompleteBounded(items, c, t, year, month);
  }

  /** For a task with items, overdue and done are exact opposites. */
  lemma OverdueIffNotDone(items: map<int, Item>, c: map<Key, int>, t: int, year: int, month: int)
    requires TaskItemIds(items, t) != {}
    ensures IsOverdue(|IncompleteIds(items, c, t, year, month)|) <==> !IsDone(items, c, t, year, month)
  {
  }

  /** How many items are incomplete depends only on how periods read. */
  lemma IncompleteIdsOfMaterialized(items: map<int, Item>, c: map<Key, int>, ks: set<Key>, t: int, year: int, month: int)
    ensures IncompleteIds(items, Materialize(c, ks), t, year, month) == IncompleteIds(items, c, t, year, month)
  {
    forall i | i in items
      ensures Status(Materialize(c, ks), (i, year, month)) == Status(c, (i, year, month))
    {
      MaterializeKeepsStatus(c, ks, (i, year, month));
    }
  }

  /** The tasks of `ts` that are done for a period. */
  function DoneAmong(items: map<int, Item>, c: map<Key, int>, ts: set<int>, year: int, month: int): set<int> {
    set t | t in ts && IsDone(items, c, t, year, month)
  }

  /** The done count never exceeds the number of tasks counted. */
  lemma DoneAmongBounded(items: map<int, Item>, c: map<Key, int>, ts: set<int>, year: int, month: int)
    ensures DoneAmong(items, c, ts, year, month) <= ts
    ensures |DoneAmong(items, c, ts, year, month)| <= |ts|
  {
    SubsetCardinality(DoneAmong(items, c, ts, year, month), ts);
  }

  /** Which tasks are done depends only on how periods read. */
  lemma DoneAmongOfMaterialized(items: map<int, Item>, c: map<Key, int>, ks: set<Key>, ts: set<int>, year: int, month: int)
    ensures DoneAmong(items, Materialize(c, ks), ts, year, month) == DoneAmong(items, c, ts, year, month)
  {
    forall t | t in ts
      ensures IncompleteIds(items, Materialize(c, ks), t, year, month) == IncompleteIds(items, c, t, year, month)
    {
      IncompleteIdsOfMaterialized(items, c, ks, t, year, month);
    }
  }

  /** Counting one more task adds one exactly when it is done. */
  lemma DoneAmongAdd(items: map<int, Item>, c: map<Key, int>, ts: set<int>, t: int, year: int, month: int)
    requires t !in ts
    ensures |DoneAmong(items, c, ts + {t}, year, month)| ==
      |DoneAmong(items, c, ts, year, month)| + (if IsDone(items, c, t, year, month) then 1 else 0)
  {
    assert DoneAmong(items, c, ts + {t}, year, month) ==
      DoneAmong(items, c, ts, year, month) + (if IsDone(items, c, t, year, month) then {t} else {});
  }

  /** The period keys of every item of the tasks `ts`. */
  function ItemPeriodKeys(items: map<int, Item>, ts: set<int>, year: int, month: int): set<Key> {
    set i | i in items && items[i].taskId in ts :: (i, year, month)
  }

  /** Counting one more task adds the keys of its items. */
  lemma ItemPeriodKeysAdd(items: map<int, Item>, ts: set<int>, t: int, year: int, month: int)
    ensures ItemPeriodKeys(items, ts + {t}, year, month) ==
      ItemPeriodKeys(items, ts, year, month) + PeriodKeys(TaskItemIds(items, t), year, month)
  {
  }

  /**
   * Whether some item of task `t` has a record with `completed = 1` in any
   * period: the query of `has_any_completion`.
   */
  predicate AnyCompleted(items: map<int, Item>, c: map<Key, int>, t: int) {
    exists k | k in c :: c[k] == 1 && k.0 in items && items[k.0].taskId == t
  }

  /** Creating default records never makes a task count as started. */
  lemma AnyCompletedOfMaterialized(items: map<int, Item>, c: map<Key, int>, ks: set<Key>, t: int)
    ensures AnyCompleted(items, Materialize(c, ks), t) <==> AnyCompleted(items, c, t)
  {
    var c' := Materialize(c, ks);
    if AnyCompleted(items, c', t) {
      var k :| k in c' && c'[k] == 1 && k.0 in items && items[k.0].taskId == t;
      assert k in c;
    }
    if AnyCompleted(items, c, t) {
      var k :| k in c && c[k] == 1 && k.0 in items && items[k.0].taskId == t;
      assert k in c';
    }
  }

  /** Toggling an item of the task from 0 marks the task as started. */
  lemma ToggleOnStarts(items: map<int, Item>, c: map<Key, int>, k: Key)
    requires k.0 in items && Status(c, k) == 0
    ensures AnyCompleted(items, Toggled(c, k), items[k.0].taskId)
  {
    assert k in Toggled(c, k) && Toggled(c, k)[k] == 1;
  }

  /** Only a task with items can have been started. */
  lemma StartedHasItems(items: map<int, Item>, c: map<Key, int>, t: int)
    requires AnyCompleted(items, c, t)
    ensures TaskItemIds(items, t) != {}
  {
    var k :| k in c && c[k] == 1 && k.0 in items && items[k.0].taskId == t;
    assert k.0 in TaskItemIds(items, t);
  }

  /** Every id of `ids` is an item. */
  ghost predicate AllItems(items: map<int, Item>, ids: seq<int>) {
    forall k :: 0 <= k < |ids| ==> ids[k] in items
  }

  /** The ids a listing mentions. */
  function Members(ids: seq<int>): set<int> {
    set x | x in ids
  }

  /** No id appears twice. */
  predicate Distinct(ids: seq<int>) {
    forall j, k :: 0 <= j < k < |ids| ==> ids[j] != ids[k]
  }

  lemma MembersSnoc(ids: seq<int>, k: nat)
    requires k < |ids|
    ensures Members(ids[..k + 1]) == Members(ids[..k]) + {ids[k]}
  {
    assert ids[..k + 1] == ids[..k] + [ids[k]];
  }

  /** The listed items, each with how its period reads. */
  function Annotate(items: map<int, Item>, c: map<Key, int>, ids: seq<int>, year: int, month: int): (r: seq<Annotated>)
    requires AllItems(items, ids)
    ensures |r| == |ids|
  {
    seq(|ids|, k requires 0 <= k < |ids| => Annotated(ids[k], items[ids[k]], Status(c, (ids[k], year, month))))
  }

  /** A listing built row by row is the annotated listing. */
  lemma AnnotateRows(items: map<int, Item>, c: map<Key, int>, ids: seq<int>, rows: seq<Annotated>, year: int, month: int)
    requires AllItems(items, ids) && |rows| == |ids|
    requires forall j :: 0 <= j < |ids| ==> rows[j] == Annotated(ids[j], items[ids[j]], Status(c, (ids[j], year, month)))
    ensures rows == Annotate(items, c, ids, year, month)
  {
  }

  /** The checklist of task `t` in `order_num` order, each item with its status for the period. */
  ghost function AnnotatedChecklist(items: map<int, Item>, c: map<Key, int>, t: int, year: int, month: int): seq<Annotated> {
    SortByOrderSpec(items, TaskItemIds(items, t));
    Annotate(items, c, Checklist(items, t), year, month)
  }

  /** The annotated checklist depends only on how periods read. */
  lemma AnnotatedOfMaterialized(items: map<int, Item>, c: map<Key, int>, ks: set<Key>, t: int, year: int, month: int)
    ensures AnnotatedChecklist(items, Materialize(c, ks), t, year, month) == AnnotatedChecklist(items, c, t, year, month)
  {
    var l, r := AnnotatedChecklist(items, Materialize(c, ks), t, year, month), AnnotatedChecklist(items, c, t, year, month);
    forall k | 0 <= k < |l| ensures l[k] == r[k] {
      MaterializeKeepsStatus(c, ks, (l[k].id, year, month));
    }
  }

  /** The annotated checklist has one row per item of the task. */
  lemma AnnotatedChecklistSize(items: map<int, Item>, c: map<Key, int>, t: int, year: int, month: int)
    ensures |AnnotatedChecklist(items, c, t, year, month)| == |TaskItemIds(items, t)|
  {
    SortByOrderSpec(items, TaskItemIds(items, t));
  }

  /**
   * The annotated checklist lists the task's items by ascending `order_num`,
   * each with its item record and how its period reads.
   */
  lemma AnnotatedChecklistRows(items: map<int, Item>, c: map<Key, int>, t: int, year: int, month: int)
    requires DistinctOrders(items)
    ensures var rows := AnnotatedChecklist(items, c, t, year, month);
      |rows| == |TaskItemIds(items, t)| &&
      (forall k :: 0 <= k < |rows| ==>
         rows[k].id in TaskItemIds(items, t) && rows[k].item == items[rows[k].id] &&
         rows[k].completed == Status(c, (rows[k].id, year, month))) &&
      (forall j, k :: 0 <= j < k < |rows| ==> rows[j].item.orderNum < rows[k].item.orderNum)
  {
    ChecklistSpec(items, t);
  }

  /** An item counts as incomplete exactly when the listing shows it with 0. */
  lemma ListedIncomplete(items: map<int, Item>, c: map<Key, int>, t: int, year: int, month: int, i: int)
    requires DistinctOrders(items)
    ensures var rows := AnnotatedChecklist(items, c, t, year, month);
      i in IncompleteIds(items, c, t, year, month) <==>
      exists k :: 0 <= k < |rows| && rows[k].id == i && rows[k].completed == 0
  {
    ChecklistSpec(items, t);
    var ids := Checklist(items, t);
    var rows := AnnotatedChecklist(items, c, t, year, month);
    if i in IncompleteIds(items, c, t, year, month) {
      assert i in TaskItemIds(items, t);
      var k :| 0 <= k < |ids| && ids[k] == i;
      assert rows[k].id == i && rows[k].completed == 0;
    }
  }

  /** A task is overdue exactly when its listing shows an unfinished item. */
  lemma OverdueIffListedUnfinished(items: map<int, Item>, c: map<Key, int>, t: int, year: int, month: int)
    requires DistinctOrders(items)
    ensures var rows := AnnotatedChecklist(items, c, t, year, month);
      IsOverdue(|IncompleteIds(items, c, t, year, month)|) <==> exists k :: 0 <= k < |rows| && rows[k].completed == 0
  {
    var rows := AnnotatedChecklist(items, c, t, year, month);
    var s := IncompleteIds(items, c, t, year, month);
    if exists k :: 0 <= k < |rows| && rows[k].completed == 0 {
      var k :| 0 <= k < |rows| && rows[k].completed == 0;
      var i := rows[k].id;
      ListedIncomplete(items, c, t, year, month, i);
      assert i in s;
    }
    if IsOverdue(|s|) {
      Inhabited(s);
      var i :| i in s;
      ListedIncomplete(items, c, t, year, month, i);
    }
  }

  /** The items table without the items of task `t`. */
  function WithoutTask(items: map<int, Item>, t: int): (r: map<int, Item>)
    ensures r.Keys == items.Keys - TaskItemIds(items, t)
    ensures forall i :: i in r ==> r[i] == items[i]
  {
    map i | i in items && items[i].taskId != t :: items[i]
  }

  /** The checklist of a task depends only on that task's item records. */
  lemma ChecklistOfSameRecords(items: map<int, Item>, items': map<int, Item>, u: int)
    requires DistinctOrders(items) && DistinctOrders(items')
    requires TaskItemIds(items, u) == TaskItemIds(items', u)
    requires forall i :: i in TaskItemIds(items, u) ==> items'[i] == items[i]
    ensures Checklist(items', u) == Checklist(items, u)
  {
    ChecklistSpec(items, u);
    ChecklistSpec(items', u);
    var a := Checklist(items, u);
    forall k | 0 <= k < |a| ensures a[k] in TaskItemIds(items, u) && items'[a[k]] == items[a[k]] {
      var x := a[k];
      assert x in a;
    }
    assert StrictlyOrdered(items', a);
    OrderedUnique(items', a, Checklist(items', u));
  }

  /**
   * After a task is deleted together with its items and their records, it
   * has no items and was never started, and every other task keeps its
   * checklist and its statuses.
   */
  lemma DeleteTaskEffects(items: map<int, Item>, c: map<Key, int>, t: int, u: int, year: int, month: int)
    requires DistinctOrders(items) && u != t
    ensures var items', c' := WithoutTask(items, t), Forget(c, TaskItemIds(items, t));
      TaskItemIds(items', t) == {} && !AnyCompleted(items', c', t) &&
      Checklist(items', u) == Checklist(items, u) &&
      AnnotatedChecklist(items', c', u, year, month) == AnnotatedChecklist(items, c, u, year, month)
  {
    var items', c' := WithoutTask(items, t), Forget(c, TaskItemIds(items, t));
    if AnyCompleted(items', c', t) {
      StartedHasItems(items', c', t);
    }
    assert TaskItemIds(items', u) == TaskItemIds(items, u);
    ChecklistOfSameRecords(items, items', u);
    var l, r := AnnotatedChecklist(items', c', u, year, month), AnnotatedChecklist(items, c, u, year, month);
    ChecklistSpec(items, u);
    forall k | 0 <= k < |l| ensures l[k] == r[k] {
      var i := Checklist(items, u)[k];
      assert i in TaskItemIds(items, u);
      assert Status(c', (i, year, month)) == Status(c, (i, year, month));
    }
  }

  // ---------------------------------------------------------------------------
  // The due filter of a month

  /**
   * The tasks listed for a month: active tasks whose company exists (the
   * join) and whose schedule is due that month.
   */
  function DueTasks(tasks: map<int, Task>, companies: map<int, Company>, month: int): (r: set<int>)
    ensures r <= tasks.Keys
    ensures forall t :: t in r ==> tasks[t].active && tasks[t].companyId in companies
  {
    set t | t in tasks && tasks[t].active && tasks[t].companyId in companies &&
            IsDue(month, tasks[t].scheduleType, tasks[t].scheduleDetail)
  }

  /** The optional company filter of the dashboard, the statistics and the mail. */
  function ForCompany(tasks: map<int, Task>, ids: set<int>, company: Option<int>): (r: set<int>)
    ensures r <= ids
    ensures company.None? ==> r == ids
    ensures company.Some? ==> forall t :: t in r ==> t in tasks && tasks[t].companyId == company.value
  {
    if company.None? then ids else set t | t in ids && t in tasks && tasks[t].companyId == company.value
  }

  /** The tasks after `active` has been set to `active` for every id of `ids`; unknown ids are ignored. */
  function WithActive(tasks: map<int, Task>, ids: set<int>, active: bool): (r: map<int, Task>)
    ensures r.Keys == tasks.Keys
    ensures forall t :: t in r ==> r[t] == tasks[t].(active := r[t].active)
    ensures forall t :: t in r ==> r[t].active == (if t in ids then active else tasks[t].active)
  {
    map t | t in tasks :: if t in ids then tasks[t].(active := active) else tasks[t]
  }

  /** Hiding tasks removes them from the listing of every month; no other task changes. */
  lemma HiddenLeaveEveryMonth(tasks: map<int, Task>, companies: map<int, Company>, ids: set<int>, month: int)
    ensures DueTasks(WithActive(tasks, ids, false), companies, month) == DueTasks(tasks, companies, month) - ids
  {
  }

  /** Showing tasks lists them again exactly in the months their schedule names. */
  lemma ShownRejoinMonths(tasks: map<int, Task>, companies: map<int, Company>, ids: set<int>, month: int, t: int)
    requires t in tasks && t in ids && tasks[t].companyId in companies
    ensures t in DueTasks(WithActive(tasks, ids, true), companies, month) <==>
      IsDue(month, tasks[t].scheduleType, tasks[t].scheduleDetail)
  {
  }

  /** Setting the same visibility twice is setting it once. */
  lemma WithActiveIdempotent(tasks: map<int, Task>, ids: set<int>, active: bool)
    ensures WithActive(WithActive(tasks, ids, active), ids, active) == WithActive(tasks, ids, active)
  {
  }

  /** `[t for t in rows if t['company_id'] == company]`, keeping the listing order. */
  function OfCompany(tasks: map<int, Task>, ids: seq<int>, company: int): (r: seq<int>)
    ensures |r| <= |ids|
  {
    if ids == [] then []
    else
      var last := ids[|ids| - 1];
      OfCompany(tasks, ids[..|ids| - 1], company) + (if last in tasks && tasks[last].companyId == company then [last] else [])
  }

  /** The filter keeps exactly the rows of the company. */
  lemma {:induction false} OfCompanyMembers(tasks: map<int, Task>, ids: seq<int>, company: int)
    ensures forall x :: x in OfCompany(tasks, ids, company) <==> x in ids && x in tasks && tasks[x].companyId == company
  {
    if ids != [] {
      var pre, last := ids[..|ids| - 1], ids[|ids| - 1];
      OfCompanyMembers(tasks, pre, company);
      assert ids == pre + [last];
      forall x ensures x in ids <==> x in pre || x == last {
      }
    }
  }

  /** A duplicate-free listing stays duplicate-free under the filter. */
  lemma {:induction false} OfCompanyDistinct(tasks: map<int, Task>, ids: seq<int>, company: int)
    requires Distinct(ids)
    ensures Distinct(OfCompany(tasks, ids, company))
  {
    if ids != [] {
      var pre, last := ids[..|ids| - 1], ids[|ids| - 1];
      forall j, k | 0 <= j < k < |pre| ensures pre[j] != pre[k] {
        assert pre[j] == ids[j] && pre[k] == ids[k];
      }
      OfCompanyDistinct(tasks, pre, company);
      OfCompanyMembers(tasks, pre, company);
      var r' := OfCompany(tasks, pre, company);
      var r := OfCompany(tasks, ids, company);
      if last in tasks && tasks[last].companyId == company {
        assert r == r' + [last];
        forall j, k | 0 <= j < k < |r| ensures r[j] != r[k] {
          if k < |r'| {
            assert r[j] == r'[j] && r[k] == r'[k];
          } else {
            var x := r'[j];
            assert x in r';
            assert x in pre;
            var i :| 0 <= i < |pre| && pre[i] == x;
            assert ids[i] != ids[|ids| - 1];
          }
        }
      } else {
        assert r == r';
      }
    }
  }

  /** A hidden task is never listed. */
  lemma HiddenNeverDue(tasks: map<int, Task>, companies: map<int, Company>, month: int, t: int)
    requires t in tasks && !tasks[t].active
    ensures t !in DueTasks(tasks, companies, month)
  {
  }

  /** An active monthly task of a known company is listed in every month 1..12. */
  lemma MonthlyListedEveryMonth(tasks: map<int, Task>, companies: map<int, Company>, month: int, t: int)
    requires t in tasks && tasks[t].active && tasks[t].companyId in companies
    requires tasks[t].scheduleType == Monthly && 1 <= month <= 12
    ensures t in DueTasks(tasks, companies, month)
  {
    MonthlyDueEveryMonth(month, tasks[t].scheduleDetail);
  }

  /** Any other active task of a known company is listed exactly in the months its detail names. */
  lemma OtherListedIffNamed(tasks: map<int, Task>, companies: map<int, Company>, month: int, t: int)
    requires t in tasks && tasks[t].active && tasks[t].companyId in companies
    requires tasks[t].scheduleType != Monthly
    ensures t in DueTasks(tasks, companies, month) <==> month in ParseMonthList(tasks[t].scheduleDetail)
  {
    ListedDue(month, tasks[t].scheduleType, tasks[t].scheduleDetail);
  }

  /** No task is listed outside the months 1..12. */
  lemma NothingDueOutsideYear(tasks: map<int, Task>, companies: map<int, Company>, month: int)
    requires month < 1 || month > 12
    ensures DueTasks(tasks, companies, month) == {}
  {
    forall t | t in tasks
      ensures !IsDue(month, tasks[t].scheduleType, tasks[t].scheduleDetail)
    {
      var r := DueMonthList(tasks[t].scheduleType, tasks[t].scheduleDetail);
      assert forall k :: 0 <= k < |r| ==> 1 <= r[k] <= 12;
    }
  }

  // ---------------------------------------------------------------------------
  // The order of a checklist

  /** `ids` lists items in strictly increasing `order_num`. */
  ghost predicate StrictlyOrdered(items: map<int, Item>, ids: seq<int>) {
    (forall k :: 0 <= k < |ids| ==> ids[k] in items) &&
    (forall j, k :: 0 <= j < k < |ids| ==> items[ids[j]].orderNum < items[ids[k]].orderNum)
  }

  /** No two items of the same task share an `order_num`. */
  ghost predicate DistinctOrders(items: map<int, Item>) {
    forall i, j :: i in items && j in items && i != j && items[i].taskId == items[j].taskId ==>
      items[i].orderNum != items[j].orderNum
  }

  /** A set of ids is empty or has a member. */
  lemma Inhabited(s: set<int>)
    ensures s == {} || exists x :: x in s
  {
    if forall x :: x !in s {
      assert s == {};
    }
  }

  /** Some item of a non-empty set has the least `order_num`. */
  lemma {:induction false} MinExists(items: map<int, Item>, s: set<int>)
    requires s != {} && s <= items.Keys
    ensures exists m :: m in s && forall j :: j in s ==> items[m].orderNum <= items[j].orderNum
    decreases s
  {
    Inhabited(s);
    var x :| x in s;
    if s != {x} {
      MinExists(items, s - {x});
      var m' :| m' in s - {x} && forall j :: j in s - {x} ==> items[m'].orderNum <= items[j].orderNum;
      if items[m'].orderNum < items[x].orderNum {
        assert forall j :: j in s ==> items[m'].orderNum <= items[j].orderNum;
      } else {
        assert forall j :: j in s ==> items[x].orderNum <= items[j].orderNum;
      }
    } else {
      assert forall j :: j in s ==> items[x].orderNum <= items[j].orderNum;
    }
  }

  /** The items of `s` by ascending `order_num`, as `ORDER BY order_num` lists them. */
  ghost function SortByOrder(items: map<int, Item>, s: set<int>): seq<int>
    requires s <= items.Keys
    decreases s
  {
    if s == {} then []
    else
      MinExists(items, s);
      var m :| m in s && forall j :: j in s ==> items[m].orderNum <= items[j].orderNum;
      [m] + SortByOrder(items, s - {m})
  }

  /** The checklist of task `t` in `order_num` order. */
  ghost function Checklist(items: map<int, Item>, t: int): seq<int> {
    SortByOrder(items, TaskItemIds(items, t))
  }

  /** Sorting lists every member once, and in non-decreasing `order_num`. */
  lemma {:induction false} SortByOrderSpec(items: map<int, Item>, s: set<int>)
    requires s <= items.Keys
    ensures var r := SortByOrder(items, s);
      |r| == |s| && (forall k :: 0 <= k < |r| ==> r[k] in s) && (forall x :: x in s ==> x in r) &&
      (forall j, k :: 0 <= j < k < |r| ==> r[j] != r[k] && items[r[j]].orderNum <= items[r[k]].orderNum)
    decreases s
  {
    if s != {} {
      var r := SortByOrder(items, s);
      var m := r[0];
      assert m in s && forall j :: j in s ==> items[m].orderNum <= items[j].orderNum;
      SortByOrderSpec(items, s - {m});
      assert r == [m] + SortByOrder(items, s - {m});
    }
  }

  /** With distinct order numbers the checklist is strictly ordered and holds exactly the task's items. */
  lemma ChecklistSpec(items: map<int, Item>, t: int)
    requires DistinctOrders(items)
    ensures StrictlyOrdered(items, Checklist(items, t))
    ensures forall i :: i in Checklist(items, t) <==> i in TaskItemIds(items, t)
    ensures |Checklist(items, t)| == |TaskItemIds(items, t)|
  {
    SortByOrderSpec(items, TaskItemIds(items, t));
  }

  /** The checklist mentions exactly the task's items. */
  lemma ChecklistMembers(items: map<int, Item>, t: int)
    ensures Members(Checklist(items, t)) == TaskItemIds(items, t)
  {
    SortByOrderSpec(items, TaskItemIds(items, t));
    var ids := Checklist(items, t);
    forall i ensures i in Members(ids) <==> i in TaskItemIds(items, t) {
      if i in TaskItemIds(items, t) {
        assert i in ids;
      }
    }
  }

  /** Two strictly ordered listings of the same items are the same listing. */
  lemma {:induction false} OrderedUnique(items: map<int, Item>, a: seq<int>, b: seq<int>)
    requires StrictlyOrdered(items, a) && StrictlyOrdered(items, b)
    requires forall i :: i in a <==> i in b
    ensures a == b
    decreases |a| + |b|
  {
    if a != [] {
      var x := a[0];
      assert x in a;
    }
    if b != [] {
      var y := b[0];
      assert y in b;
    }
    if a != [] && b != [] {
      var x, y := a[0], b[0];
      assert x in a && y in b;
      var ka :| 0 <= ka < |b| && b[ka] == x;
      var kb :| 0 <= kb < |a| && a[kb] == y;
      assert ka == 0;
      forall i ensures i in a[1..] <==> i in b[1..] {
        if i in a[1..] {
          var k :| 1 <= k < |a| && a[k] == i;
          assert i != a[0];
          assert i in a;
        }
        if i in b[1..] {
          var k :| 1 <= k < |b| && b[k] == i;
          assert i != b[0];
          assert i in b;
        }
      }
      OrderedUnique(items, a[1..], b[1..]);
    }
  }

  /** The checklist is the one strictly ordered listing of the task's items. */
  lemma ChecklistUnique(items: map<int, Item>, t: int, ids: seq<int>)
    requires DistinctOrders(items)
    requires StrictlyOrdered(items, ids)
    requires forall i :: i in ids <==> i in TaskItemIds(items, t)
    ensures ids == Checklist(items, t)
  {
    ChecklistSpec(items, t);
    OrderedUnique(items, ids, Checklist(items, t));
  }
}
