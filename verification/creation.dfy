/**
 * Creating a task: `new_task_post_handler` stores the task row with the
 * form's values (defaults where a field is missing) and one checklist item
 * per non-blank description, numbered by the description's row index and
 * carrying the file uploaded for that row.
 */
module Creation {
  import opened Wrappers
  import opened Text
  import opened Forms
  import opened Attachments
  import opened Model
  import opened Tracker
  import Editor

  // ---------------------------------------------------------------------------
  // The task row

  /** A contact-like field: the first value stripped, empty text stored as None. */
  function Stripped(form: map<string, seq<string>>, name: string): (r: Option<string>)
    ensures r.Some? ==> r.value != "" && Strip(r.value) == r.value
  {
    StripIdempotent(First(form, name, ""));
    var v := Strip(First(form, name, ""));
    if v == "" then None else Some(v)
  }

  /**
   * The task row the form describes: `company_id` read with `int()`, the kind,
   * signature method and schedule type with their defaults, the schedule
   * detail as given, the contact fields stripped. None when `int()` rejects
   * the company id, in which case the request fails before anything is stored.
   */
  function NewTaskRecord(form: map<string, seq<string>>): (r: Option<Task>)
    ensures r.None? <==> ParseInt(First(form, "company_id", "0")).None?
  {
    var company := ParseInt(First(form, "company_id", "0"));
    if company.None? then None
    else
      var detail := First(form, "schedule_detail", "");
      Some(Task(company.value, First(form, "task_type", "INHOUSE"), First(form, "signature_method", "EMAIL"),
                First(form, "schedule_type", "monthly"), if detail == "" then None else Some(detail),
                Stripped(form, "contact_name"), Stripped(form, "contact_phone"), Stripped(form, "contact_email"),
                Stripped(form, "detail_name"), true))
  }

  /** A form without fields creates an in-house, e-mail-signed, monthly task of company 0 with no contact. */
  lemma NewTaskDefaults()
    ensures NewTaskRecord(map[]) == Some(Task(0, "INHOUSE", "EMAIL", "monthly", None, None, None, None, None, true))
  {
    var empty: map<string, seq<string>> := map[];
    ParseIntToString(0);
    assert IntToString(0) == "0";
    assert Strip("") == "";
  }

  /** A created task is visible, has no empty contact field and no empty schedule detail. */
  lemma NewTaskNormalized(form: map<string, seq<string>>)
    ensures var r := NewTaskRecord(form);
      r.Some? ==> r.value.active && Editor.Normalized(r.value) && r.value.scheduleDetail != Some("")
  {
  }

  /** Submitting the creation form again on the edit page leaves the created task as it is. */
  lemma EditWithCreationForm(form: map<string, seq<string>>)
    ensures var r := NewTaskRecord(form);
      r.Some? ==> Editor.EditedTask(r.value, form) == r.value
  {
    var r := NewTaskRecord(form);
    if r.Some? {
      var task := r.value;
      ContactKept(form, "contact_name");
      ContactKept(form, "contact_phone");
      ContactKept(form, "contact_email");
      ContactKept(form, "detail_name");
      assert Editor.CompanyChoice(form, task.companyId) == task.companyId;
    }
  }

  /** A stripped contact field is kept when the same form is submitted as an edit. */
  lemma ContactKept(form: map<string, seq<string>>, name: string)
    ensures Editor.Contact(Editor.Given(form, name), Stripped(form, name)) == Stripped(form, name)
  {
    assert Strip("") == "";
  }

  // ---------------------------------------------------------------------------
  // The checklist rows

  /** The item description row `idx` becomes: stripped, numbered `idx`, with the file of its row. */
  function RowItem(t: int, desc: string, files: map<int, string>, ts: int, idx: int): Item {
    Item(t, Strip(desc), Editor.NewAttachment(files, idx, ts), idx)
  }

  /** The indices of the non-blank descriptions, in row order. */
  function NonBlank(descs: seq<string>): (r: seq<int>)
    ensures forall j :: 0 <= j < |r| ==> 0 <= r[j] < |descs|
  {
    if descs == [] then []
    else
      var n := |descs| - 1;
      NonBlank(descs[..n]) + (if Blank(descs[n]) then [] else [n])
  }

  /** The indices strictly increase, and they are exactly the rows whose description is not blank. */
  lemma {:induction false} NonBlankSpec(descs: seq<string>)
    ensures forall j, k :: 0 <= j < k < |NonBlank(descs)| ==> NonBlank(descs)[j] < NonBlank(descs)[k]
    ensures forall idx :: idx in NonBlank(descs) <==> 0 <= idx < |descs| && !Blank(descs[idx])
  {
    if descs != [] {
      var n := |descs| - 1;
      var pre := descs[..n];
      NonBlankSpec(pre);
      forall idx | 0 <= idx < n ensures pre[idx] == descs[idx] { }
    }
  }

  lemma NonBlankSnoc(descs: seq<string>, idx: nat)
    requires idx < |descs|
    ensures NonBlank(descs[..idx + 1]) == NonBlank(descs[..idx]) + (if Blank(descs[idx]) then [] else [idx])
  {
    assert descs[..idx + 1][..idx] == descs[..idx];
  }

  /**
   * The rows an edit appends are laid out like the rows of a new task: the
   * `j`-th is the stripped description of the `j`-th non-blank row, in
   * submission order, with the file of that row's own index.
   */
  lemma {:induction false} NewRowsByIndex(descs: seq<string>, files: map<int, string>, ts: int)
    ensures var r, idxs := Editor.NewRows(descs, files, ts), NonBlank(descs);
      |r| == |idxs| &&
      forall j :: 0 <= j < |r| ==> r[j] == Editor.NewRow(Strip(descs[idxs[j]]), Editor.RowAttachment(files, idxs[j], ts))
  {
    if descs != [] {
      var n := |descs| - 1;
      var pre := descs[..n];
      NewRowsByIndex(pre, files, ts);
      Editor.NewRowsSnoc(descs, files, ts);
      var r', r := Editor.NewRows(pre, files, ts), Editor.NewRows(descs, files, ts);
      var i', i := NonBlank(pre), NonBlank(descs);
      assert i == i' + (if Blank(descs[n]) then [] else [n]);
      forall j | 0 <= j < |r|
        ensures r[j] == Editor.NewRow(Strip(descs[i[j]]), Editor.RowAttachment(files, i[j], ts))
      {
        if j < |r'| {
          assert r[j] == r'[j] && i[j] == i'[j];
          assert descs[i'[j]] == pre[i'[j]];
        }
      }
    }
  }

  /** The items the descriptions become, in row order; blank descriptions are skipped. */
  function CreatedRows(t: int, descs: seq<string>, files: map<int, string>, ts: int): (r: seq<Item>)
  {
    var idxs := NonBlank(descs);
    seq(|idxs|, j requires 0 <= j < |idxs| => RowItem(t, descs[idxs[j]], files, ts, idxs[j]))
  }

  lemma CreatedRowsSnoc(t: int, descs: seq<string>, files: map<int, string>, ts: int, idx: nat)
    requires idx < |descs|
    ensures CreatedRows(t, descs[..idx + 1], files, ts) ==
      CreatedRows(t, descs[..idx], files, ts) + (if Blank(descs[idx]) then [] else [RowItem(t, descs[idx], files, ts, idx)])
  {
    NonBlankSnoc(descs, idx);
  }

  /**
   * The created items strictly increase in `order_num`, and there is one for
   * each row with a non-blank description, numbered by that row.
   */
  lemma CreatedRowsSpec(t: int, descs: seq<string>, files: map<int, string>, ts: int)
    ensures forall j, k :: 0 <= j < k < |CreatedRows(t, descs, files, ts)| ==>
      CreatedRows(t, descs, files, ts)[j].orderNum < CreatedRows(t, descs, files, ts)[k].orderNum
    ensures forall idx :: 0 <= idx < |descs| && !Blank(descs[idx]) <==>
      exists j :: 0 <= j < |CreatedRows(t, descs, files, ts)| && CreatedRows(t, descs, files, ts)[j].orderNum == idx
  {
    NonBlankSpec(descs);
    var idxs := NonBlank(descs);
    var r := CreatedRows(t, descs, files, ts);
    forall idx | 0 <= idx < |descs| && !Blank(descs[idx]) ensures exists j :: 0 <= j < |r| && r[j].orderNum == idx {
      var j :| 0 <= j < |idxs| && idxs[j] == idx;
      assert r[j].orderNum == idx;
    }
    forall idx | exists j :: 0 <= j < |r| && r[j].orderNum == idx ensures 0 <= idx < |descs| && !Blank(descs[idx]) {
      var j :| 0 <= j < |r| && r[j].orderNum == idx;
      assert idxs[j] in idxs;
    }
  }

  /** Each created item belongs to task `t` and carries its row's description stripped, and that is not empty. */
  lemma CreatedDescriptions(t: int, descs: seq<string>, files: map<int, string>, ts: int)
    ensures forall j :: 0 <= j < |CreatedRows(t, descs, files, ts)| ==>
      var item := CreatedRows(t, descs, files, ts)[j];
      item.taskId == t && 0 <= item.orderNum < |descs| && item.description == Strip(descs[item.orderNum]) &&
      item.description != "" && Strip(item.description) == item.description
  {
    NonBlankSpec(descs);
    var idxs := NonBlank(descs);
    var r := CreatedRows(t, descs, files, ts);
    forall j | 0 <= j < |r| ensures r[j].description != "" && Strip(r[j].description) == r[j].description {
      assert idxs[j] in idxs;
      StripIdempotent(descs[idxs[j]]);
    }
  }

  /**
   * A created item has an attachment exactly when a file with a name was
   * uploaded for its row, and downloading it offers that file's name.
   */
  lemma CreatedAttachments(t: int, descs: seq<string>, files: map<int, string>, ts: int)
    ensures forall j :: 0 <= j < |CreatedRows(t, descs, files, ts)| ==>
      var item := CreatedRows(t, descs, files, ts)[j];
      (item.attachment.Some? <==> item.orderNum in files && files[item.orderNum] != "") &&
      (item.attachment.Some? ==> OriginalNameAsWritten(item.attachment.value) == files[item.orderNum])
  {
    var r := CreatedRows(t, descs, files, ts);
    forall j | 0 <= j < |r| && r[j].attachment.Some?
      ensures OriginalNameAsWritten(r[j].attachment.value) == files[r[j].orderNum]
    {
      OriginalNameRoundTrip(ts, r[j].orderNum, files[r[j].orderNum]);
    }
  }

  // ---------------------------------------------------------------------------
  // Storing the rows

  /** `rows` stored under consecutive ids from `n0`. */
  function Numbered(n0: int, rows: seq<Item>): map<int, Item> {
    if rows == [] then map[]
    else Numbered(n0, rows[..|rows| - 1])[n0 + |rows| - 1 := rows[|rows| - 1]]
  }

  lemma {:induction false} NumberedItems(n0: int, rows: seq<Item>)
    ensures forall i :: i in Numbered(n0, rows) <==> n0 <= i < n0 + |rows|
    ensures forall i :: n0 <= i < n0 + |rows| ==> Numbered(n0, rows)[i] == rows[i - n0]
  {
    if rows != [] {
      var pre := rows[..|rows| - 1];
      NumberedItems(n0, pre);
      forall k | 0 <= k < |pre| ensures rows[k] == pre[k] { }
    }
  }

  /** Storing one more row under the next id. */
  lemma NumberedSnoc(items: map<int, Item>, n0: int, rows: seq<Item>, item: Item, added: map<int, Item>, id: int)
    requires added == items + Numbered(n0, rows) && id == n0 + |rows|
    ensures added[id := item] == items + Numbered(n0, rows + [item])
  {
    assert (rows + [item])[..|rows|] == rows;
  }

  /** The loop over the description rows, inserting an item for each non-blank one. */
  method InsertCreated(items: map<int, Item>, nextId: int, t: int, descs: seq<string>, files: map<int, string>, ts: int)
    returns (added: map<int, Item>, next: int)
    ensures next == nextId + |CreatedRows(t, descs, files, ts)|
    ensures added == items + Numbered(nextId, CreatedRows(t, descs, files, ts))
  {
    added, next := items, nextId;
    for idx := 0 to |descs|
      invariant next == nextId + |CreatedRows(t, descs[..idx], files, ts)|
      invariant added == items + Numbered(nextId, CreatedRows(t, descs[..idx], files, ts))
    {
      CreatedRowsSnoc(t, descs, files, ts, idx);
      var d := Strip(descs[idx]);
      if d != "" {
        var item := Item(t, d, Editor.NewAttachment(files, idx, ts), idx);
        assert item == RowItem(t, descs[idx], files, ts, idx);
        ghost var rows := CreatedRows(t, descs[..idx], files, ts);
        NumberedSnoc(items, nextId, rows, item, added, next);
        assert CreatedRows(t, descs[..idx + 1], files, ts) == rows + [item];
        added := added[next := item];
        next := next + 1;
      } else {
        assert CreatedRows(t, descs[..idx + 1], files, ts) == CreatedRows(t, descs[..idx], files, ts);
      }
    }
    assert descs[..|descs|] == descs;
  }

  /**
   * Rows of task `t` in strictly increasing `order_num`, stored after the
   * existing items of other tasks, keep `order_num`s distinct within each task.
   */
  lemma NumberedDistinct(items: map<int, Item>, t: int, n0: int, rows: seq<Item>)
    requires DistinctOrders(items)
    requires forall i :: i in items ==> i < n0 && items[i].taskId != t
    requires forall j :: 0 <= j < |rows| ==> rows[j].taskId == t
    requires forall j, k :: 0 <= j < k < |rows| ==> rows[j].orderNum < rows[k].orderNum
    ensures DistinctOrders(items + Numbered(n0, rows))
  {
    var all := items + Numbered(n0, rows);
    NumberedItems(n0, rows);
    forall i, j | i in all && j in all && i != j && all[i].taskId == all[j].taskId
      ensures all[i].orderNum != all[j].orderNum
    {
      if n0 <= i && n0 <= j {
        assert all[i] == rows[i - n0] && all[j] == rows[j - n0];
        if i < j {
          assert rows[i - n0].orderNum < rows[j - n0].orderNum;
        } else {
          assert rows[j - n0].orderNum < rows[i - n0].orderNum;
        }
      } else if i < n0 && j < n0 {
        assert all[i] == items[i] && all[j] == items[j];
      }
    }
  }

  /** Such rows are task `t`'s whole checklist, in the order they were stored. */
  lemma NumberedChecklist(items: map<int, Item>, t: int, n0: int, rows: seq<Item>)
    requires DistinctOrders(items + Numbered(n0, rows))
    requires forall i :: i in items ==> i < n0 && items[i].taskId != t
    requires forall j :: 0 <= j < |rows| ==> rows[j].taskId == t
    requires forall j, k :: 0 <= j < k < |rows| ==> rows[j].orderNum < rows[k].orderNum
    ensures Checklist(items + Numbered(n0, rows), t) == Editor.Fresh(n0, |rows|)
  {
    var all := items + Numbered(n0, rows);
    var ids := Editor.Fresh(n0, |rows|);
    NumberedItems(n0, rows);
    forall k | 0 <= k < |ids| ensures ids[k] in all && all[ids[k]] == rows[k] {
      assert ids[k] == n0 + k;
    }
    assert StrictlyOrdered(all, ids) by {
      forall j, k | 0 <= j < k < |ids| ensures all[ids[j]].orderNum < all[ids[k]].orderNum {
        assert all[ids[j]] == rows[j] && all[ids[k]] == rows[k];
      }
    }
    forall i ensures i in ids <==> i in TaskItemIds(all, t) {
      if n0 <= i < n0 + |rows| {
        assert ids[i - n0] == i;
        assert all[i] == rows[i - n0];
      } else {
        assert i !in ids by {
          forall k | 0 <= k < |ids| ensures ids[k] != i {
            assert ids[k] == n0 + k;
          }
        }
        assert i in all ==> all[i] == items[i];
      }
    }
    ChecklistUnique(all, t, ids);
  }

  /**
   * `new_task_post_handler`. `uploads` is the file part of the parsed form
   * and `ts` the clock reading the stored names carry. When `int()` rejects
   * the company id nothing is stored; otherwise the task takes the next task
   * id and its items the next item ids.
   */
  method NewTask(s: Store, form: map<string, seq<string>>, uploads: map<string, seq<Upload>>, ts: int)
    returns (created: Option<int>)
    requires s.Valid()
    modifies s`tasks, s`items, s`nextTaskId, s`nextItemId
    ensures s.Valid()
    ensures NewTaskRecord(form).None? ==>
      created.None? && s.tasks == old(s.tasks) && s.items == old(s.items) &&
      s.nextTaskId == old(s.nextTaskId) && s.nextItemId == old(s.nextItemId)
    ensures NewTaskRecord(form).Some? ==>
      var t := old(s.nextTaskId);
      var rows := CreatedRows(t, Lookup(form, ItemDescription), RowFileMap(Lookup(uploads, ItemFile)), ts);
      created == Some(t) && t !in old(s.tasks) &&
      s.tasks == old(s.tasks)[t := NewTaskRecord(form).value] && s.nextTaskId == t + 1 &&
      s.items == old(s.items) + Numbered(old(s.nextItemId), rows) &&
      s.nextItemId == old(s.nextItemId) + |rows| &&
      Checklist(s.items, t) == Editor.Fresh(old(s.nextItemId), |rows|)
  {
    var record := NewTaskRecord(form);
    if record.None? {
      return None;
    }
    var t := AddTaskRow(s, record.value);
    AddCreatedItems(s, t, Lookup(form, ItemDescription), RowFileMap(Lookup(uploads, ItemFile)), ts);
    created := Some(t);
  }

  /** Stored rows of an existing task keep every item's task existing and every id below the counter. */
  lemma NumberedOwners(items: map<int, Item>, tasks: map<int, Task>, t: int, n0: int, rows: seq<Item>)
    requires t in tasks && 1 <= n0
    requires forall i :: i in items ==> items[i].taskId in tasks && 1 <= i < n0
    requires forall j :: 0 <= j < |rows| ==> rows[j].taskId == t
    ensures forall i :: i in items + Numbered(n0, rows) ==>
      (items + Numbered(n0, rows))[i].taskId in tasks && 1 <= i < n0 + |rows|
  {
    NumberedItems(n0, rows);
  }

  /** The `INSERT INTO tasks`: the row takes the next task id, which no item refers to yet. */
  method AddTaskRow(s: Store, task: Task) returns (t: int)
    requires s.Valid()
    modifies s`tasks, s`nextTaskId
    ensures s.Valid()
    ensures t == old(s.nextTaskId) && t !in old(s.tasks) && t in s.tasks
    ensures s.tasks == old(s.tasks)[t := task] && s.nextTaskId == t + 1
    ensures forall i :: i in s.items ==> s.items[i].taskId != t
  {
    t := s.nextTaskId;
    s.tasks := s.tasks[t := task];
    s.nextTaskId := t + 1;
  }

  /** The loop of `INSERT INTO checklist_items` for a task that has no items yet. */
  method AddCreatedItems(s: Store, t: int, descs: seq<string>, files: map<int, string>, ts: int)
    requires s.Valid() && t in s.tasks
    requires forall i :: i in s.items ==> s.items[i].taskId != t
    modifies s`items, s`nextItemId
    ensures s.Valid()
    ensures s.items == old(s.items) + Numbered(old(s.nextItemId), CreatedRows(t, descs, files, ts))
    ensures s.nextItemId == old(s.nextItemId) + |CreatedRows(t, descs, files, ts)|
    ensures Checklist(s.items, t) == Editor.Fresh(old(s.nextItemId), |CreatedRows(t, descs, files, ts)|)
  {
    ghost var rows := CreatedRows(t, descs, files, ts);
    CreatedRowsSpec(t, descs, files, ts);
    assert forall j :: 0 <= j < |rows| ==> rows[j].taskId == t;
    NumberedDistinct(s.items, t, s.nextItemId, rows);
    NumberedChecklist(s.items, t, s.nextItemId, rows);
    NumberedOwners(s.items, s.tasks, t, s.nextItemId, rows);
    s.items, s.nextItemId := InsertCreated(s.items, s.nextItemId, t, descs, files, ts);
  }
}
