/**
 * The tracker's tables as one mutable store: companies, tasks, checklist
 * items and the period completion ledger, with the queries and updates the
 * dashboard and the toggle perform on them.
 */
module Tracker {
  import opened Wrappers
  import opened Text
  import opened Schedule
  import opened Forms
  import opened Model

  class Store {
    var companies: map<int, Company>
    var tasks: map<int, Task>
    var items: map<int, Item>
    /** `checklist_completions`: one record per (item, year, month), as the table's UNIQUE constraint demands. */
    var completions: map<Key, int>
    /** The next ids AUTOINCREMENT hands out. */
    var nextTaskId: int
    var nextItemId: int

    /**
     * Every completion is 0 or 1, every item belongs to an existing task, no
     * two items of a task share an `order_num`, and ids stay below the
     * counters.
     */
    ghost predicate Valid()
      reads this
    {
      Binary(completions) && DistinctOrders(items) &&
      (forall i :: i in items ==> items[i].taskId in tasks) &&
      1 <= nextTaskId && 1 <= nextItemId &&
      (forall t :: t in tasks ==> 1 <= t < nextTaskId) &&
      (forall i :: i in items ==> 1 <= i < nextItemId)
    }

    /** An empty tracker for the given companies. */
    constructor (companies: map<int, Company>)
      ensures Valid()
      ensures this.companies == companies && tasks == map[] && items == map[] && completions == map[]
      ensures nextTaskId == 1 && nextItemId == 1
    {
      this.companies := companies;
      tasks, items, completions := map[], map[], map[];
      nextTaskId, nextItemId := 1, 1;
    }

    /**
     * `ensure_completion`: read the record of a period, creating it with 0
     * when it does not exist yet.
     */
    method EnsureCompletion(item: int, year: int, month: int) returns (status: int)
      requires Valid()
      modifies this`completions
      ensures Valid()
      ensures (item, year, month) in old(completions) ==>
        status == old(completions)[(item, year, month)] && completions == old(completions)
      ensures (item, year, month) !in old(completions) ==>
        status == 0 && completions == old(completions)[(item, year, month) := 0]
      ensures completions == Materialize(old(completions), {(item, year, month)})
      ensures status == Status(old(completions), (item, year, month))
    {
      var key := (item, year, month);
      if key in completions {
        status := completions[key];
      } else {
        completions := completions[key := 0];
        status := 0;
      }
      assert completions == Materialize(old(completions), {key});
    }

    /** The toggle of `toggle_item_handler`: 1 becomes 0, anything else becomes 1. */
    method Toggle(item: int, year: int, month: int) returns (newStatus: int)
      requires Valid()
      modifies this`completions
      ensures Valid()
      ensures completions == Toggled(old(completions), (item, year, month))
      ensures newStatus == 1 - Status(old(completions), (item, year, month))
    {
      var current := EnsureCompletion(item, year, month);
      newStatus := if current == 1 then 0 else 1;
      completions := completions[(item, year, month) := newStatus];
      ToggleFlips(old(completions), (item, year, month));
    }

    /**
     * `get_incomplete_count_year_month`: visit every item of the task,
     * creating its record for the period, and count the ones that read 0.
     */
    method IncompleteCount(t: int, year: int, month: int) returns (n: nat)
      requires Valid()
      modifies this`completions
      ensures Valid()
      ensures n == |IncompleteIds(items, old(completions), t, year, month)|
      ensures completions == Materialize(old(completions), PeriodKeys(TaskItemIds(items, t), year, month))
    {
      var rest := set i | i in items && items[i].taskId == t;
      ghost var visited: set<int> := {};
      n := 0;
      assert completions == Materialize(old(completions), PeriodKeys(visited, year, month));
      while rest != {}
        invariant Valid()
        invariant rest + visited == TaskItemIds(items, t) && rest !! visited
        invariant n == |ZeroAmong(visited, old(completions), year, month)|
        invariant completions == Materialize(old(completions), PeriodKeys(visited, year, month))
        decreases rest
      {
        Inhabited(rest);
        var i :| i in rest;
        MaterializeStep(old(completions), visited, i, year, month);
        var status := EnsureCompletion(i, year, month);
        ZeroAmongAdd(visited, i, old(completions), year, month);
        if status == 0 {
          n := n + 1;
        }
        rest, visited := rest - {i}, visited + {i};
      }
      IncompleteIdsAsZeroAmong(items, old(completions), t, year, month);
    }

    /**
     * The `ORDER BY order_num` listing of a task's items, found by repeatedly
     * taking the unlisted item with the least `order_num`.
     */
    method ItemsByOrder(t: int) returns (ids: seq<int>)
      requires Valid()
      ensures ids == Checklist(items, t)
    {
      var rest := set i | i in items && items[i].taskId == t;
      ids := [];
      while rest != {}
        invariant rest <= TaskItemIds(items, t)
        invariant StrictlyOrdered(items, ids)
        invariant forall i :: i in ids <==> i in TaskItemIds(items, t) && i !in rest
        invariant forall k, j :: 0 <= k < |ids| && j in rest ==> items[ids[k]].orderNum < items[j].orderNum
        decreases rest
      {
        Inhabited(rest);
        var m :| m in rest;
        var scan := rest - {m};
        while scan != {}
          invariant scan <= rest && m in rest
          invariant forall j :: j in rest - scan ==> items[m].orderNum <= items[j].orderNum
          decreases scan
        {
          Inhabited(scan);
          var j :| j in scan;
          if items[j].orderNum < items[m].orderNum {
            m := j;
          }
          scan := scan - {j};
        }
        forall j | j in rest - {m} ensures items[m].orderNum < items[j].orderNum {
          assert items[m].orderNum <= items[j].orderNum;
        }
        ids := ids + [m];
        rest := rest - {m};
      }
      ChecklistUnique(items, t, ids);
    }

    /**
     * `get_items_with_completion`: the task's items by `order_num`, each
     * with its status for the period, creating missing records on the way.
     */
    method ItemsWithCompletion(t: int, year: int, month: int) returns (rows: seq<Annotated>)
      requires Valid()
      modifies this`completions
      ensures Valid()
      ensures rows == AnnotatedChecklist(items, old(completions), t, year, month)
      ensures completions == Materialize(old(completions), PeriodKeys(TaskItemIds(items, t), year, month))
    {
      var ids := ItemsByOrder(t);
      ChecklistSpec(items, t);
      rows := AnnotateListed(ids, year, month);
      ChecklistMembers(items, t);
    }

    /** The loop of `get_items_with_completion` over the listed items. */
    method AnnotateListed(ids: seq<int>, year: int, month: int) returns (rows: seq<Annotated>)
      requires Valid() && AllItems(items, ids)
      modifies this`completions
      ensures Valid()
      ensures rows == Annotate(items, old(completions), ids, year, month)
      ensures completions == Materialize(old(completions), PeriodKeys(Members(ids), year, month))
    {
      rows := [];
      assert completions == Materialize(old(completions), PeriodKeys(Members(ids[..0]), year, month));
      for k := 0 to |ids|
        invariant Valid()
        invariant |rows| == k
        invariant forall j :: 0 <= j < k ==> rows[j] == Annotated(ids[j], items[ids[j]], Status(old(completions), (ids[j], year, month)))
        invariant completions == Materialize(old(completions), PeriodKeys(Members(ids[..k]), year, month))
      {
        var i := ids[k];
        MaterializeStep(old(completions), Members(ids[..k]), i, year, month);
        MembersSnoc(ids, k);
        var status := EnsureCompletion(i, year, month);
        rows := rows + [Annotated(i, items[i], status)];
      }
      assert ids[..|ids|] == ids;
      AnnotateRows(items, old(completions), ids, rows, year, month);
    }

    /**
     * One task row of the dashboard: its incomplete count, the overdue flag
     * (`incomplete > 0`) and its annotated checklist.
     */
    method TaskView(t: int, year: int, month: int) returns (incomplete: nat, overdue: bool, rows: seq<Annotated>)
      requires Valid()
      modifies this`completions
      ensures Valid()
      ensures incomplete == |IncompleteIds(items, old(completions), t, year, month)|
      ensures overdue <==> incomplete > 0
      ensures rows == AnnotatedChecklist(items, old(completions), t, year, month)
      ensures completions == Materialize(old(completions), PeriodKeys(TaskItemIds(items, t), year, month))
    {
      incomplete := IncompleteCount(t, year, month);
      ghost var between := completions;
      rows := ItemsWithCompletion(t, year, month);
      overdue := IsOverdue(incomplete);
      AnnotatedOfMaterialized(items, old(completions), PeriodKeys(TaskItemIds(items, t), year, month), t, year, month);
      MaterializeTwice(old(completions), PeriodKeys(TaskItemIds(items, t), year, month), PeriodKeys(TaskItemIds(items, t), year, month));
    }

    /**
     * `get_tasks_for_month`: the rows of active tasks joined with their
     * company, kept when the month is among the task's due months. The rows
     * come in no particular order.
     */
    method TasksForMonth(month: int) returns (due: seq<int>)
      ensures Distinct(due)
      ensures forall t :: t in due <==> t in DueTasks(tasks, companies, month)
    {
      var rows := set t | t in tasks && tasks[t].active && tasks[t].companyId in companies;
      due := [];
      while rows != {}
        invariant rows <= tasks.Keys
        invariant Distinct(due)
        invariant forall t :: t in due ==> t !in rows
        invariant forall t :: t in DueTasks(tasks, companies, month) <==> t in due || (t in rows && IsDue(month, tasks[t].scheduleType, tasks[t].scheduleDetail))
        invariant forall t :: t in rows ==> tasks[t].active && tasks[t].companyId in companies
        decreases rows
      {
        Inhabited(rows);
        var t :| t in rows;
        var task := tasks[t];
        if IsDue(month, task.scheduleType, task.scheduleDetail) {
          due := due + [t];
        }
        rows := rows - {t};
      }
    }

    /**
     * `delete_task_handler`: remove the completion records of every item of
     * the task, then its items, then the task.
     */
    method DeleteTask(t: int)
      requires Valid()
      modifies this`tasks, this`items, this`completions
      ensures Valid()
      ensures tasks == old(tasks) - {t}
      ensures items == WithoutTask(old(items), t)
      ensures completions == Forget(old(completions), TaskItemIds(old(items), t))
    {
      var ids := set i | i in items && items[i].taskId == t;
      ghost var visited: set<int> := {};
      var rest := ids;
      while rest != {}
        invariant rest + visited == ids && rest !! visited
        invariant completions == Forget(old(completions), visited)
        invariant tasks == old(tasks) && items == old(items)
        decreases rest
      {
        Inhabited(rest);
        var i :| i in rest;
        completions := map k | k in completions && k.0 != i :: completions[k];
        rest, visited := rest - {i}, visited + {i};
      }
      items := map i | i in items && items[i].taskId != t :: items[i];
      tasks := tasks - {t};
    }

    /**
     * The update of `update_tasks_visibility_handler`: with a non-empty id
     * list, set `active` to 1 for the action `show` and to 0 for any other.
     */
    method SetVisibility(ids: seq<int>, action: string)
      requires Valid()
      modifies this`tasks
      ensures Valid()
      ensures tasks == WithActive(old(tasks), set k | 0 <= k < |ids| :: ids[k], action == "show")
    {
      if |ids| > 0 {
        var show := action == "show";
        tasks := map t | t in tasks :: if t in ids then tasks[t].(active := show) else tasks[t];
      } else {
        assert tasks == WithActive(tasks, {}, action == "show");
      }
    }

    /** `update_tasks_visibility_handler`: read the ids and the action (default `hide`) and apply them. */
    method UpdateVisibility(form: map<string, seq<string>>)
      requires Valid()
      modifies this`tasks
      ensures Valid()
      ensures tasks == WithActive(old(tasks), set k | 0 <= k < |ParsedIds(Lookup(form, "task_ids"))| :: ParsedIds(Lookup(form, "task_ids"))[k],
                                  First(form, "action", "hide") == "show")
    {
      var ids := ParseTaskIds(Lookup(form, "task_ids"));
      var action := First(form, "action", "hide");
      SetVisibility(ids, action);
    }

    /** `toggle_item_handler`: read year and month (defaulting to the current ones) and toggle. */
    method ToggleItem(form: map<string, seq<string>>, item: int, currentYear: int, currentMonth: int)
      requires Valid()
      modifies this`completions
      ensures Valid()
      ensures completions == Toggled(old(completions),
        (item, IntParam(Lookup(form, "year"), currentYear), IntParam(Lookup(form, "month"), currentMonth)))
    {
      var year := IntParam(Lookup(form, "year"), currentYear);
      var month := IntParam(Lookup(form, "month"), currentMonth);
      var _ := Toggle(item, year, month);
    }
  }
}
