/**
 * `edit_task_post_handler`: a partial update of the task's own fields,
 * then the reconciliation of its checklist in four steps: the items marked
 * for deletion go, together with their completion records; the other items
 * get their submitted descriptions and new attachments; the non-blank new
 * descriptions are appended after the largest remaining `order_num`; and the
 * whole checklist is renumbered 0, 1, 2, ... in `order_num` order.
 */
module Editor {
  import opened Wrappers
  import opened Text
  import opened Forms
  import opened Attachments
  import opened Model
  import opened Tracker

  const NewItemDescription: string := "new_item_description"
  const NewItemFile: string := "new_item_file"

  // ---------------------------------------------------------------------------
  // The task's own fields

  /** `form.get(name, [None])[0]`. */
  function Given(form: map<string, seq<string>>, name: string): (r: Option<string>)
    ensures r.None? <==> Lookup(form, name) == []
    ensures r.Some? ==> r.value == form[name][0]
  {
    var values := Lookup(form, name);
    if values == [] then None else Some(values[0])
  }

  /** `value or None` on a nullable text. */
  function OrNone(o: Option<string>): Option<string> {
    if o.Some? && o.value == "" then None else o
  }

  /** `given or existing`: a missing or empty submission keeps the existing value. */
  function Choice(given: Option<string>, existing: string): string {
    if given.Some? && given.value != "" then given.value else existing
  }

  /** A contact field: the submission stripped, else the existing value, and empty text stored as None. */
  function Contact(given: Option<string>, existing: Option<string>): Option<string> {
    OrNone(if given.Some? then Some(Strip(given.value)) else existing)
  }

  /** The company: the submitted id when `int()` reads it, else the existing one. */
  function CompanyChoice(form: map<string, seq<string>>, existing: int): int {
    var values := Lookup(form, "company_id");
    var parsed := if values == [] then None else ParseInt(values[0]);
    if parsed.Some? then parsed.value else existing
  }

  /** The task after the partial update of its fields; `active` is not part of this form. */
  function EditedTask(task: Task, form: map<string, seq<string>>): Task {
    var detail := Given(form, "schedule_detail");
    task.(companyId := CompanyChoice(form, task.companyId),
          taskType := Choice(Given(form, "task_type"), task.taskType),
          signatureMethod := Choice(Given(form, "signature_method"), task.signatureMethod),
          scheduleType := Choice(Given(form, "schedule_type"), task.scheduleType),
          scheduleDetail := if detail.Some? && detail.value != "" then detail else task.scheduleDetail,
          contactName := Contact(Given(form, "contact_name"), task.contactName),
          contactPhone := Contact(Given(form, "contact_phone"), task.contactPhone),
          contactEmail := Contact(Given(form, "contact_email"), task.contactEmail),
          detailName := Contact(Given(form, "detail_name"), task.detailName))
  }

  /** No contact field of the row holds empty text, as every path that writes them ensures. */
  predicate Normalized(task: Task) {
    task.contactName != Some("") && task.contactPhone != Some("") &&
    task.contactEmail != Some("") && task.detailName != Some("")
  }

  /** A form that submits no field leaves a normalized task as it is. */
  lemma EmptyFormKeepsTask(task: Task)
    requires Normalized(task)
    ensures EditedTask(task, map[]) == task
  {
    var empty: map<string, seq<string>> := map[];
    assert Lookup(empty, "company_id") == [];
  }

  /** Submitting the same form twice changes nothing more than submitting it once, and the result is normalized. */
  lemma EditedTaskIdempotent(task: Task, form: map<string, seq<string>>)
    ensures Normalized(EditedTask(task, form))
    ensures EditedTask(EditedTask(task, form), form) == EditedTask(task, form)
  {
    forall given: Option<string>, existing: Option<string> ensures Contact(given, Contact(given, existing)) == Contact(given, existing) {
      if given.Some? {
        StripIdempotent(given.value);
      }
    }
  }

  // ---------------------------------------------------------------------------
  // Which existing items go and what the others become

  /** The form marks item `id` for deletion. */
  predicate Marked(form: map<string, seq<string>>, id: int) {
    Lookup(form, "delete_item_" + IntToString(id)) != []
  }

  /** The marked ids of a listing, in listing order. */
  function MarkedIds(form: map<string, seq<string>>, ids: seq<int>): (r: seq<int>)
    ensures |r| <= |ids|
  {
    if ids == [] then []
    else
      var pre, x := ids[..|ids| - 1], ids[|ids| - 1];
      assert ids == pre + [x];
      MarkedIds(form, pre) + (if Marked(form, x) then [x] else [])
  }

  /** The unmarked ids of a listing, in listing order. */
  function KeptIds(form: map<string, seq<string>>, ids: seq<int>): (r: seq<int>)
    ensures |r| <= |ids|
  {
    if ids == [] then []
    else
      var pre, x := ids[..|ids| - 1], ids[|ids| - 1];
      assert ids == pre + [x];
      KeptIds(form, pre) + (if Marked(form, x) then [] else [x])
  }

  /** Every listed id is either marked or kept, never both, and nothing else is listed. */
  lemma {:induction false} ClassifiedMembers(form: map<string, seq<string>>, ids: seq<int>)
    ensures forall x :: x in MarkedIds(form, ids) <==> x in ids && Marked(form, x)
    ensures forall x :: x in KeptIds(form, ids) <==> x in ids && !Marked(form, x)
  {
    if ids != [] {
      var pre, x := ids[..|ids| - 1], ids[|ids| - 1];
      ClassifiedMembers(form, pre);
      assert ids == pre + [x];
    }
  }

  /** The survivors keep their relative order. */
  lemma {:induction false} KeptOrdered(items: map<int, Item>, form: map<string, seq<string>>, ids: seq<int>)
    requires StrictlyOrdered(items, ids)
    ensures StrictlyOrdered(items, KeptIds(form, ids))
  {
    if ids != [] {
      var pre, x := ids[..|ids| - 1], ids[|ids| - 1];
      KeptOrdered(items, form, pre);
      ClassifiedMembers(form, pre);
      var r := KeptIds(form, ids);
      var r' := KeptIds(form, pre);
      if !Marked(form, x) {
        assert r == r' + [x];
        forall j | 0 <= j < |r'| ensures items[r'[j]].orderNum < items[x].orderNum {
          var y := r'[j];
          assert y in r';
          assert y in pre;
          var k :| 0 <= k < |pre| && pre[k] == y;
          assert ids[k] == y;
        }
      }
    }
  }

  /** The description of a surviving item: the submitted one stripped, or the old one when none was submitted. */
  function NewDescription(form: map<string, seq<string>>, id: int, current: string): string {
    var values := Lookup(form, "existing_item_description_" + IntToString(id));
    if values != [] then Strip(values[0]) else current
  }

  /** The new attachment of an item, when a file was uploaded for it. */
  function NewAttachment(files: map<int, string>, id: int, ts: int): Option<string> {
    if id in files && files[id] != "" then Some(StoredName(ts, id, files[id])) else None
  }

  /** An entry of `items_to_update`. */
  datatype Update = Update(id: int, description: string, attachment: Option<string>)

  function UpdateOf(items: map<int, Item>, form: map<string, seq<string>>, files: map<int, string>, ts: int, id: int): Update
    requires id in items
  {
    Update(id, NewDescription(form, id, items[id].description), NewAttachment(files, id, ts))
  }

  /** The `UPDATE`: the description always, the attachment only when a new one was stored. */
  function Apply(item: Item, u: Update): Item {
    item.(description := u.description, attachment := if u.attachment.Some? then u.attachment else item.attachment)
  }

  /** A surviving item as the edit leaves it, before renumbering. */
  function Revised(item: Item, form: map<string, seq<string>>, files: map<int, string>, ts: int, id: int): Item {
    Apply(item, Update(id, NewDescription(form, id, item.description), NewAttachment(files, id, ts)))
  }

  /**
   * A surviving item keeps its description unless one was submitted, keeps
   * its attachment unless a file was uploaded, and a new attachment is
   * downloaded under the uploaded file's name.
   */
  lemma RevisedItem(item: Item, form: map<string, seq<string>>, files: map<int, string>, ts: int, id: int)
    ensures var r := Revised(item, form, files, ts, id);
      r.taskId == item.taskId && r.orderNum == item.orderNum &&
      (Lookup(form, "existing_item_description_" + IntToString(id)) == [] ==> r.description == item.description) &&
      (!(id in files && files[id] != "") ==> r.attachment == item.attachment) &&
      (id in files && files[id] != "" ==> r.attachment.Some? && OriginalNameAsWritten(r.attachment.value) == files[id])
  {
    if id in files && files[id] != "" {
      OriginalNameRoundTrip(ts, id, files[id]);
    }
  }

  // ---------------------------------------------------------------------------
  // New rows

  /** An item to append: its stripped description and its attachment. */
  datatype NewRow = NewRow(description: string, attachment: Option<string>)

  /** The attachment of new row `idx`, when a file was uploaded for it. */
  function RowAttachment(files: map<int, string>, idx: int, ts: int): Option<string> {
    if idx in files && files[idx] != "" then Some(NewRowStoredName(ts, idx, files[idx])) else None
  }

  /**
   * The rows to append: every non-blank new description, stripped, with the
   * file of its row index; blank ones are skipped but still count as rows.
   */
  function NewRows(descs: seq<string>, files: map<int, string>, ts: int): (r: seq<NewRow>)
    ensures |r| <= |descs|
  {
    if descs == [] then []
    else
      var n := |descs| - 1;
      NewRows(descs[..n], files, ts) +
        (if Blank(descs[n]) then [] else [NewRow(Strip(descs[n]), RowAttachment(files, n, ts))])
  }

  /** Some appended row has description `d`. */
  predicate Appended(r: seq<NewRow>, d: string) {
    exists j :: 0 <= j < |r| && r[j].description == d
  }

  /** Some non-blank submitted description strips to `d`. */
  predicate Submitted(descs: seq<string>, d: string) {
    exists k :: 0 <= k < |descs| && !Blank(descs[k]) && Strip(descs[k]) == d
  }

  lemma NewRowsSnoc(descs: seq<string>, files: map<int, string>, ts: int)
    requires descs != []
    ensures var n := |descs| - 1;
      NewRows(descs, files, ts) ==
        NewRows(descs[..n], files, ts) + (if Blank(descs[n]) then [] else [NewRow(Strip(descs[n]), RowAttachment(files, n, ts))])
  {
  }

  lemma NewRowsStep(descs: seq<string>, files: map<int, string>, ts: int, idx: nat)
    requires idx < |descs|
    ensures NewRows(descs[..idx + 1], files, ts) ==
      NewRows(descs[..idx], files, ts) + (if Blank(descs[idx]) then [] else [NewRow(Strip(descs[idx]), RowAttachment(files, idx, ts))])
  {
    assert descs[..idx + 1][..idx] == descs[..idx];
    NewRowsSnoc(descs[..idx + 1], files, ts);
  }

  /** Every appended row has a non-blank, already stripped description that was submitted. */
  lemma {:induction false} NewRowsSound(descs: seq<string>, files: map<int, string>, ts: int)
    ensures var r := NewRows(descs, files, ts);
      forall j :: 0 <= j < |r| ==>
        r[j].description != "" && Strip(r[j].description) == r[j].description && Submitted(descs, r[j].description)
  {
    if descs != [] {
      var n := |descs| - 1;
      var pre := descs[..n];
      NewRowsSound(pre, files, ts);
      NewRowsSnoc(descs, files, ts);
      var r' := NewRows(pre, files, ts);
      var r := NewRows(descs, files, ts);
      forall j | 0 <= j < |r|
        ensures r[j].description != "" && Strip(r[j].description) == r[j].description && Submitted(descs, r[j].description)
      {
        if j < |r'| {
          assert r[j] == r'[j];
          var k :| 0 <= k < |pre| && !Blank(pre[k]) && Strip(pre[k]) == r'[j].description;
          assert descs[k] == pre[k];
        } else {
          StripIdempotent(descs[n]);
          assert r[j].description == Strip(descs[n]);
        }
      }
    }
  }

  /** Every non-blank submitted description is appended, stripped. */
  lemma {:induction false} NewRowsComplete(descs: seq<string>, files: map<int, string>, ts: int)
    ensures forall k :: 0 <= k < |descs| && !Blank(descs[k]) ==> Appended(NewRows(descs, files, ts), Strip(descs[k]))
  {
    if descs != [] {
      var n := |descs| - 1;
      var pre := descs[..n];
      NewRowsComplete(pre, files, ts);
      NewRowsSnoc(descs, files, ts);
      var r' := NewRows(pre, files, ts);
      var r := NewRows(descs, files, ts);
      forall k | 0 <= k < |descs| && !Blank(descs[k]) ensures Appended(r, Strip(descs[k])) {
        if k < n {
          assert pre[k] == descs[k];
          var j :| 0 <= j < |r'| && r'[j].description == Strip(pre[k]);
          assert r[j] == r'[j];
        } else {
          assert r[|r'|].description == Strip(descs[k]);
        }
      }
    }
  }

  /**
   * `new_files[idx]`, as the handler reads it: the idx-th uploaded new file
   * goes to the idx-th new description, counting only uploads that carried a
   * file.
   */
  function PositionalFiles(uploads: seq<Upload>): (r: map<int, string>)
    ensures forall idx :: idx in r <==> 0 <= idx < |uploads|
  {
    map idx | 0 <= idx < |uploads| :: uploads[idx].field.filename
  }

  /** The submission of two new rows, "a" without a file and "b" with "b.pdf". */
  function TwoNewRows(): seq<Field> {
    [Field(NewItemDescription, "a", ""), Field(NewItemFile, "", ""),
     Field(NewItemDescription, "b", ""), Field(NewItemFile, "", "b.pdf")]
  }

  lemma TwoNewRowsForm()
    ensures RowsForm([("a", ""), ("b", "b.pdf")], NewItemDescription, NewItemFile) == TwoNewRows()
  {
    var rows := [("a", ""), ("b", "b.pdf")];
    RowsFormSnoc(rows, NewItemDescription, NewItemFile);
    assert rows[..1] == [("a", "")];
    RowsFormSnoc(rows[..1], NewItemDescription, NewItemFile);
    assert rows[..1][..0] == [];
  }

  /**
   * With two new rows of which only the second carries a file, the handler
   * as written gives that file to the first row, while pairing each upload
   * with the description before it gives it to the second.
   */
  lemma PositionalFilesShiftRows()
    ensures PositionalFiles(Uploads(TwoNewRows(), NewItemFile)) == map[0 := "b.pdf"]
    ensures NewRowFiles(TwoNewRows()) == map[1 := "b.pdf"]
  {
    var fs := TwoNewRows();
    var d0, f0, d1, f1 := fs[0], fs[1], fs[2], fs[3];
    assert fs[..3] == [d0, f0, d1] && fs[..3][..2] == [d0, f0] && fs[..3][..2][..1] == [d0] && [d0][..0] == [];
    assert Uploads([d0], NewItemFile) == [];
    assert Uploads([d0, f0], NewItemFile) == [];
    assert Uploads([d0, f0, d1], NewItemFile) == [];
    assert Uploads(fs, NewItemFile) == [PlainUpload(f1)];
    assert TextValues([d0, f0, d1], NewItemDescription) == ["a", "b"] by {
      assert TextValues([d0], NewItemDescription) == ["a"];
      assert TextValues([d0, f0], NewItemDescription) == ["a"];
    }
    assert RowUploads([d0], NewItemDescription, NewItemFile) == [];
    assert RowUploads([d0, f0], NewItemDescription, NewItemFile) == [];
    assert RowUploads([d0, f0, d1], NewItemDescription, NewItemFile) == [];
    var u := RowUpload(1, f1);
    assert RowUploads(fs, NewItemDescription, NewItemFile) == [u];
    RowFileMapSnoc([], u);
    assert [] + [u] == [u];
  }

  /** The corrected pairing of new rows: each upload to the row of the last new description before it. */
  function NewRowFiles(fields: seq<Field>): map<int, string> {
    RowFileMap(RowUploads(fields, NewItemDescription, NewItemFile))
  }

  /** With the corrected pairing every chosen file lands on its own new row; in the example above, row 1. */
  lemma NewRowFilesKeepRows(rows: seq<(string, string)>)
    ensures NewRowFiles(RowsForm(rows, NewItemDescription, NewItemFile)) == ChosenFiles(rows)
    ensures ChosenFiles([("a", ""), ("b", "b.pdf")]) == map[1 := "b.pdf"]
  {
    RowPairingKeepsRows(rows, NewItemDescription, NewItemFile);
    var ab := [("a", ""), ("b", "b.pdf")];
    assert ChosenFiles(ab) == map[1 := "b.pdf"] by {
      assert forall idx :: 0 <= idx < |ab| && ab[idx].1 != "" <==> idx == 1;
    }
  }

  /** The uploads of new rows that all carry a file: one per row, in row order. */
  lemma {:induction false} UploadsOfFullRows(rows: seq<(string, string)>)
    requires forall k :: 0 <= k < |rows| ==> rows[k].1 != ""
    ensures var ups := Uploads(RowsForm(rows, NewItemDescription, NewItemFile), NewItemFile);
      |ups| == |rows| && forall k :: 0 <= k < |rows| ==> ups[k].field.filename == rows[k].1
  {
    if rows != [] {
      var n := |rows| - 1;
      var pre := RowsForm(rows[..n], NewItemDescription, NewItemFile);
      var d, f := Field(NewItemDescription, rows[n].0, ""), Field(NewItemFile, "", rows[n].1);
      UploadsOfFullRows(rows[..n]);
      RowsFormSnoc(rows, NewItemDescription, NewItemFile);
      UploadsSnoc(pre, d, NewItemFile);
      UploadsSnoc(pre + [d], f, NewItemFile);
      assert !IsText(f);
      var ups' := Uploads(pre, NewItemFile);
      assert Uploads(RowsForm(rows, NewItemDescription, NewItemFile), NewItemFile) == ups' + [PlainUpload(f)];
    }
  }

  /**
   * When every new row carries a file, the positional pairing of the handler
   * as written gives each file to its own row, as the corrected pairing does.
   */
  lemma {:induction false} PairingsAgreeOnFullRows(rows: seq<(string, string)>)
    requires forall k :: 0 <= k < |rows| ==> rows[k].1 != ""
    ensures PositionalFiles(Uploads(RowsForm(rows, NewItemDescription, NewItemFile), NewItemFile)) ==
            NewRowFiles(RowsForm(rows, NewItemDescription, NewItemFile))
  {
    PositionalFullRows(rows);
    RowPairingKeepsRows(rows, NewItemDescription, NewItemFile);
  }

  /** When every new row carries a file, the positional pairing gives each row its own file. */
  lemma {:induction false} PositionalFullRows(rows: seq<(string, string)>)
    requires forall k :: 0 <= k < |rows| ==> rows[k].1 != ""
    ensures PositionalFiles(Uploads(RowsForm(rows, NewItemDescription, NewItemFile), NewItemFile)) == ChosenFiles(rows)
  {
    var ups := Uploads(RowsForm(rows, NewItemDescription, NewItemFile), NewItemFile);
    UploadsOfFullRows(rows);
    var pos, chosen := PositionalFiles(ups), ChosenFiles(rows);
    forall idx | idx in pos ensures idx in chosen && pos[idx] == chosen[idx] {
      assert 0 <= idx < |rows|;
    }
    forall idx | idx in chosen ensures idx in pos {
      assert 0 <= idx < |ups|;
    }
  }

  /** The ids AUTOINCREMENT hands out for `count` new rows, from `first` on. */
  function Fresh(first: int, count: nat): (r: seq<int>)
    ensures |r| == count && forall j :: 0 <= j < count ==> r[j] == first + j
  {
    seq(count, j => first + j)
  }

  // ---------------------------------------------------------------------------
  // The steps of the handler

  /** The ids the updates are for. */
  function UpdatedIds(ups: seq<Update>): set<int> {
    set k | 0 <= k < |ups| :: ups[k].id
  }

  /** One more listed item: it joins the marked or the kept ones. */
  lemma ClassifySnoc(form: map<string, seq<string>>, ids: seq<int>, n: nat)
    requires n < |ids|
    ensures MarkedIds(form, ids[..n + 1]) == MarkedIds(form, ids[..n]) + (if Marked(form, ids[n]) then [ids[n]] else [])
    ensures KeptIds(form, ids[..n + 1]) == KeptIds(form, ids[..n]) + (if Marked(form, ids[n]) then [] else [ids[n]])
  {
    assert ids[..n + 1][..n] == ids[..n];
  }

  /** The queued updates for the surviving ids, in listing order. */
  function UpdatesOf(items: map<int, Item>, form: map<string, seq<string>>, files: map<int, string>, ts: int, kept: seq<int>): (r: seq<Update>)
    requires forall x :: x in kept ==> x in items
    ensures |r| == |kept| && forall k :: 0 <= k < |kept| ==> r[k].id == kept[k]
  {
    seq(|kept|, k requires 0 <= k < |kept| => UpdateOf(items, form, files, ts, kept[k]))
  }

  lemma UpdatesOfSnoc(items: map<int, Item>, form: map<string, seq<string>>, files: map<int, string>, ts: int, kept: seq<int>, id: int)
    requires forall x :: x in kept ==> x in items
    requires id in items
    ensures UpdatesOf(items, form, files, ts, kept + [id]) == UpdatesOf(items, form, files, ts, kept) + [UpdateOf(items, form, files, ts, id)]
  {
  }

  /**
   * The loop over the existing items in `order_num` order: a marked item is
   * queued for deletion, any other for an update of its description and
   * attachment.
   */
  method Classify(items: map<int, Item>, ids: seq<int>, form: map<string, seq<string>>, files: map<int, string>, ts: int)
      returns (toDelete: seq<int>, toUpdate: seq<Update>)
    requires forall k :: 0 <= k < |ids| ==> ids[k] in items
    ensures toDelete == MarkedIds(form, ids)
    ensures forall x :: x in KeptIds(form, ids) ==> x in items
    ensures toUpdate == UpdatesOf(items, form, files, ts, KeptIds(form, ids))
  {
    toDelete, toUpdate := [], [];
    for n := 0 to |ids|
      invariant toDelete == MarkedIds(form, ids[..n])
      invariant forall x :: x in KeptIds(form, ids[..n]) ==> x in items
      invariant toUpdate == UpdatesOf(items, form, files, ts, KeptIds(form, ids[..n]))
    {
      var id := ids[n];
      ClassifySnoc(form, ids, n);
      if Marked(form, id) {
        toDelete := toDelete + [id];
      } else {
        UpdatesOfSnoc(items, form, files, ts, KeptIds(form, ids[..n]), id);
        toUpdate := toUpdate + [UpdateOf(items, form, files, ts, id)];
      }
    }
    assert ids[..|ids|] == ids;
  }

  /** The deletion loop: each queued item goes, with every completion record it has. */
  method DeleteItems(s: Store, del: seq<int>)
    requires s.Valid()
    modifies s`items, s`completions
    ensures s.Valid()
    ensures s.items == old(s.items) - Members(del)
    ensures s.completions == Forget(old(s.completions), Members(del))
  {
    for k := 0 to |del|
      invariant s.Valid()
      invariant s.items == old(s.items) - Members(del[..k])
      invariant s.completions == Forget(old(s.completions), Members(del[..k]))
    {
      var id := del[k];
      MembersSnoc(del, k);
      s.completions := map key | key in s.completions && key.0 != id :: s.completions[key];
      s.items := s.items - {id};
    }
    assert del[..|del|] == del;
  }

  /** Two versions of the items table with the same rows, tasks and `order_num`s. */
  predicate SameShape(a: map<int, Item>, b: map<int, Item>) {
    a.Keys == b.Keys && forall i :: i in a ==> b[i].taskId == a[i].taskId && b[i].orderNum == a[i].orderNum
  }

  lemma SameShapeOrders(a: map<int, Item>, b: map<int, Item>)
    requires SameShape(a, b) && DistinctOrders(a)
    ensures DistinctOrders(b)
  {
  }

  /** The update loop: every queued update is applied to its item. */
  method UpdateItems(s: Store, ups: seq<Update>)
    requires s.Valid()
    requires forall k :: 0 <= k < |ups| ==> ups[k].id in s.items
    requires forall j, k :: 0 <= j < k < |ups| ==> ups[j].id != ups[k].id
    modifies s`items
    ensures s.Valid()
    ensures SameShape(old(s.items), s.items)
    ensures forall k :: 0 <= k < |ups| ==> s.items[ups[k].id] == Apply(old(s.items)[ups[k].id], ups[k])
    ensures forall i :: i in old(s.items) && i !in UpdatedIds(ups) ==> s.items[i] == old(s.items)[i]
  {
    var updated := ApplyUpdates(s.items, ups);
    SameShapeOrders(s.items, updated);
    s.items := updated;
  }

  /** The rows of `items` after each update of `ups` has been applied, one at a time. */
  method ApplyUpdates(items: map<int, Item>, ups: seq<Update>) returns (r: map<int, Item>)
    requires forall k :: 0 <= k < |ups| ==> ups[k].id in items
    requires forall j, k :: 0 <= j < k < |ups| ==> ups[j].id != ups[k].id
    ensures SameShape(items, r)
    ensures forall k :: 0 <= k < |ups| ==> r[ups[k].id] == Apply(items[ups[k].id], ups[k])
    ensures forall i :: i in items && i !in UpdatedIds(ups) ==> r[i] == items[i]
  {
    r := items;
    for n := 0 to |ups|
      invariant SameShape(items, r)
      invariant forall k :: 0 <= k < n ==> r[ups[k].id] == Apply(items[ups[k].id], ups[k])
      invariant forall i :: i in items && i !in UpdatedIds(ups[..n]) ==> r[i] == items[i]
    {
      var u := ups[n];
      assert UpdatedIds(ups[..n + 1]) == UpdatedIds(ups[..n]) + {u.id} by {
        assert ups[..n + 1] == ups[..n] + [u];
      }
      r := r[u.id := Apply(r[u.id], u)];
    }
    assert ups[..|ups|] == ups;
  }

  /** `COALESCE(MAX(order_num), -1)` over the items of task `t`. */
  method MaxOrderNum(items: map<int, Item>, t: int) returns (m: int)
    ensures TaskItemIds(items, t) == {} ==> m == -1
    ensures TaskItemIds(items, t) != {} ==> exists i :: i in TaskItemIds(items, t) && items[i].orderNum == m
    ensures forall i :: i in TaskItemIds(items, t) ==> items[i].orderNum <= m
  {
    var rest := TaskItemIds(items, t);
    m := -1;
    var found := false;
    ghost var seen: set<int> := {};
    while rest != {}
      invariant rest + seen == TaskItemIds(items, t) && rest !! seen
      invariant found <==> seen != {}
      invariant seen == {} ==> m == -1
      invariant seen != {} ==> exists i :: i in seen && items[i].orderNum == m
      invariant forall i :: i in seen ==> items[i].orderNum <= m
      decreases rest
    {
      Inhabited(rest);
      var i :| i in rest;
      if !found || items[i].orderNum > m {
        m := items[i].orderNum;
      }
      found := true;
      rest, seen := rest - {i}, seen + {i};
    }
  }

  /** The rows inserted for `rows` from id `n0` and `order_num` `first` on. */
  function Inserted(n0: int, t: int, rows: seq<NewRow>, first: int): map<int, Item> {
    if rows == [] then map[]
    else
      var n := |rows| - 1;
      Inserted(n0, t, rows[..n], first)[n0 + n := Item(t, rows[n].description, rows[n].attachment, first + n)]
  }

  /** Row `j` becomes item `n0 + j` of task `t` with `order_num` `first + j`, and no other id is used. */
  lemma {:induction false} InsertedItems(n0: int, t: int, rows: seq<NewRow>, first: int)
    ensures forall i :: i in Inserted(n0, t, rows, first) <==> n0 <= i < n0 + |rows|
    ensures forall i :: n0 <= i < n0 + |rows| ==>
      Inserted(n0, t, rows, first)[i] == Item(t, rows[i - n0].description, rows[i - n0].attachment, first + (i - n0))
  {
    if rows != [] {
      var n := |rows| - 1;
      var pre := rows[..n];
      InsertedItems(n0, t, pre, first);
      var m := Inserted(n0, t, rows, first);
      assert m == Inserted(n0, t, pre, first)[n0 + n := Item(t, rows[n].description, rows[n].attachment, first + n)];
      forall i | n0 <= i < n0 + n
        ensures m[i] == Item(t, rows[i - n0].description, rows[i - n0].attachment, first + (i - n0))
      {
        assert rows[i - n0] == pre[i - n0];
      }
    }
  }

  /** Inserting one more row extends the table by that one item. */
  lemma InsertedSnoc(items: map<int, Item>, n0: int, t: int, rows: seq<NewRow>, row: NewRow, first: int,
                     added: map<int, Item>, id: int, order: int)
    requires added == items + Inserted(n0, t, rows, first)
    requires id == n0 + |rows| && order == first + |rows|
    ensures added[id := Item(t, row.description, row.attachment, order)] == items + Inserted(n0, t, rows + [row], first)
  {
    var rs := rows + [row];
    assert rs[..|rs| - 1] == rows;
  }

  /** Appending after every id and every `order_num` of the task keeps `order_num`s distinct within each task. */
  lemma InsertedOrders(items: map<int, Item>, n0: int, t: int, rows: seq<NewRow>, first: int)
    requires DistinctOrders(items)
    requires forall i :: i in items ==> i < n0
    requires forall i :: i in TaskItemIds(items, t) ==> items[i].orderNum < first
    ensures DistinctOrders(items + Inserted(n0, t, rows, first))
  {
    var ins := Inserted(n0, t, rows, first);
    var all := items + ins;
    InsertedItems(n0, t, rows, first);
    forall i, j | i in all && j in all && i != j && all[i].taskId == all[j].taskId
      ensures all[i].orderNum != all[j].orderNum
    {
      if i in ins && !(j in ins) {
        assert j in TaskItemIds(items, t);
      } else if j in ins && !(i in ins) {
        assert i in TaskItemIds(items, t);
      }
    }
  }

  /**
   * The insertion loop: every non-blank new description becomes an item of
   * task `t`, with the next id from `nextId` on and the next `order_num` from
   * `first` on; a blank one is skipped.
   */
  method InsertRows(items: map<int, Item>, nextId: int, t: int, descs: seq<string>, files: map<int, string>, ts: int, first: int)
      returns (added: map<int, Item>, next: int)
    ensures next == nextId + |NewRows(descs, files, ts)|
    ensures added == items + Inserted(nextId, t, NewRows(descs, files, ts), first)
  {
    added, next := items, nextId;
    var order := first;
    ghost var rows: seq<NewRow> := [];
    for idx := 0 to |descs|
      invariant rows == NewRows(descs[..idx], files, ts)
      invariant order == first + |rows| && next == nextId + |rows|
      invariant added == items + Inserted(nextId, t, rows, first)
    {
      NewRowsStep(descs, files, ts, idx);
      var desc := Strip(descs[idx]);
      if desc != [] {
        var row := NewRow(desc, RowAttachment(files, idx, ts));
        InsertedSnoc(items, nextId, t, rows, row, first, added, next, order);
        added := added[next := Item(t, row.description, row.attachment, order)];
        next, order, rows := next + 1, order + 1, rows + [row];
      }
    }
    assert descs[..|descs|] == descs;
  }

  /** The inserted items join the task's checklist; the store stays consistent. */
  method AddItems(s: Store, t: int, descs: seq<string>, files: map<int, string>, ts: int, first: int)
    requires s.Valid() && t in s.tasks
    requires forall i :: i in TaskItemIds(s.items, t) ==> s.items[i].orderNum < first
    modifies s`items, s`nextItemId
    ensures s.Valid()
    ensures s.nextItemId == old(s.nextItemId) + |NewRows(descs, files, ts)|
    ensures s.items == old(s.items) + Inserted(old(s.nextItemId), t, NewRows(descs, files, ts), first)
    ensures forall i :: i in old(s.items) ==> i < old(s.nextItemId)
  {
    InsertedOrders(s.items, s.nextItemId, t, NewRows(descs, files, ts), first);
    InsertedItems(s.nextItemId, t, NewRows(descs, files, ts), first);
    s.items, s.nextItemId := InsertRows(s.items, s.nextItemId, t, descs, files, ts, first);
  }

  /** The checklist lists items of the table, each once. */
  lemma ChecklistListed(items: map<int, Item>, t: int)
    requires DistinctOrders(items)
    ensures var ids := Checklist(items, t);
      Distinct(ids) && forall k :: 0 <= k < |ids| ==> ids[k] in items
  {
    ChecklistSpec(items, t);
  }

  /** The closing loop: the task's items, in `order_num` order, get `order_num` 0, 1, 2, ... */
  method Renumber(s: Store, t: int, ids: seq<int>)
    requires s.Valid() && ids == Checklist(s.items, t)
    modifies s`items
    ensures s.Valid()
    ensures s.items.Keys == old(s.items).Keys
    ensures forall k :: 0 <= k < |ids| ==> ids[k] in old(s.items)
    ensures forall k :: 0 <= k < |ids| ==> s.items[ids[k]] == old(s.items)[ids[k]].(orderNum := k)
    ensures forall i :: i in old(s.items) && old(s.items)[i].taskId != t ==> s.items[i] == old(s.items)[i]
    ensures Checklist(s.items, t) == ids
  {
    ChecklistListed(s.items, t);
    ChecklistSpec(s.items, t);
    var renumbered := Renumbered(s.items, ids);
    RenumberedOrders(s.items, renumbered, t, ids);
    ChecklistUnique(renumbered, t, ids);
    s.items := renumbered;
  }

  /** The renumbering loop: the item at position `k` of `ids` gets `order_num` `k`; no other row changes. */
  method Renumbered(items: map<int, Item>, ids: seq<int>) returns (r: map<int, Item>)
    requires Distinct(ids) && forall k :: 0 <= k < |ids| ==> ids[k] in items
    ensures r.Keys == items.Keys
    ensures forall k :: 0 <= k < |ids| ==> r[ids[k]] == items[ids[k]].(orderNum := k)
    ensures forall i :: i in r && i !in Members(ids) ==> r[i] == items[i]
  {
    r := items;
    ghost var done: set<int> := {};
    for n := 0 to |ids|
      invariant done == Members(ids[..n])
      invariant r.Keys == items.Keys
      invariant forall k :: 0 <= k < n ==> r[ids[k]] == items[ids[k]].(orderNum := k)
      invariant forall i :: i in r && i !in done ==> r[i] == items[i]
    {
      var id := ids[n];
      MembersSnoc(ids, n);
      assert id !in done by {
        forall x | x in ids[..n] ensures x != id {
          var k :| 0 <= k < n && ids[k] == x;
        }
      }
      r := r[id := r[id].(orderNum := n)];
      done := done + {id};
    }
    assert ids[..|ids|] == ids;
  }

  /** After renumbering, the task's items are ordered by their position, and no two items of any task share an `order_num`. */
  lemma RenumberedOrders(before: map<int, Item>, after: map<int, Item>, t: int, ids: seq<int>)
    requires DistinctOrders(before) && StrictlyOrdered(before, ids)
    requires forall i :: i in ids <==> i in TaskItemIds(before, t)
    requires after.Keys == before.Keys
    requires forall k :: 0 <= k < |ids| ==> after[ids[k]] == before[ids[k]].(orderNum := k)
    requires forall i :: i in after && i !in Members(ids) ==> after[i] == before[i]
    ensures DistinctOrders(after) && StrictlyOrdered(after, ids)
    ensures forall i :: i in ids <==> i in TaskItemIds(after, t)
  {
    forall i, j | i in after && j in after && i != j && after[i].taskId == after[j].taskId
      ensures after[i].orderNum != after[j].orderNum
    {
      if i in ids && j in ids {
        var a :| 0 <= a < |ids| && ids[a] == i;
        var b :| 0 <= b < |ids| && ids[b] == j;
      }
    }
  }

  // ---------------------------------------------------------------------------
  // The whole handler

  /**
   * The items table after editing task `t`, against the table before: the
   * unmarked items keep their relative order and come first, revised; the
   * new rows follow under fresh ids from `n0`; `order_num`s are 0, 1, 2, ...
   * in that order; the marked items are gone; other tasks' items are as they
   * were.
   */
  ghost predicate EditedChecklist(before: map<int, Item>, after: map<int, Item>, t: int, form: map<string, seq<string>>,
                                  existingFiles: map<int, string>, newFiles: map<int, string>, ts: int, n0: int)
  {
    var listed := Checklist(before, t);
    EditedTable(before, after, t, form, existingFiles, ts, KeptIds(form, listed), Members(MarkedIds(form, listed)),
                NewRows(Lookup(form, NewItemDescription), newFiles, ts), n0)
  }

  /** `EditedChecklist` for given survivors `kept`, deleted ids `marked` and new rows `rows`. */
  ghost predicate EditedTable(before: map<int, Item>, after: map<int, Item>, t: int, form: map<string, seq<string>>,
                              files: map<int, string>, ts: int, kept: seq<int>, marked: set<int>, rows: seq<NewRow>, n0: int)
  {
    Checklist(after, t) == kept + Fresh(n0, |rows|) &&
    (forall i :: i in after <==> (i in before && i !in marked) || n0 <= i < n0 + |rows|) &&
    (forall k :: 0 <= k < |kept| ==>
       kept[k] in before && kept[k] in after &&
       after[kept[k]] == Revised(before[kept[k]], form, files, ts, kept[k]).(orderNum := k)) &&
    (forall j :: 0 <= j < |rows| ==>
       n0 + j in after && after[n0 + j] == Item(t, rows[j].description, rows[j].attachment, |kept| + j)) &&
    (forall i :: i in before && before[i].taskId != t ==> i in after && after[i] == before[i])
  }

  /** The survivors of the deletion, listed in the old order, are exactly the task's remaining items. */
  lemma SurvivorsListed(before: map<int, Item>, after: map<int, Item>, t: int, form: map<string, seq<string>>)
    requires DistinctOrders(before)
    requires SameShape(before - Members(MarkedIds(form, Checklist(before, t))), after)
    ensures var kept := KeptIds(form, Checklist(before, t));
      StrictlyOrdered(after, kept) && forall i :: i in TaskItemIds(after, t) <==> i in kept
  {
    var listed := Checklist(before, t);
    var kept := KeptIds(form, listed);
    var marked := Members(MarkedIds(form, listed));
    ChecklistSpec(before, t);
    KeptOrdered(before, form, listed);
    ClassifiedMembers(form, listed);
    var mid := before - marked;
    forall x | x in kept ensures x in mid && mid[x] == before[x] {
      assert x in listed && !Marked(form, x);
      assert x !in MarkedIds(form, listed);
    }
    forall k | 0 <= k < |kept| ensures kept[k] in after && after[kept[k]].orderNum == before[kept[k]].orderNum {
      var x := kept[k];
      assert x in kept;
      assert after[x].orderNum == mid[x].orderNum;
    }
    forall i ensures i in TaskItemIds(after, t) <==> i in kept {
      if i in TaskItemIds(after, t) {
        assert i in mid && mid[i] == before[i];
        assert i in listed;
        assert i !in MarkedIds(form, listed);
      }
    }
  }

  /** The kept items followed by the inserted ones are the new checklist. */
  lemma AppendedChecklist(items: map<int, Item>, t: int, kept: seq<int>, n0: int, rows: seq<NewRow>, first: int)
    requires DistinctOrders(items + Inserted(n0, t, rows, first))
    requires StrictlyOrdered(items, kept)
    requires forall i :: i in TaskItemIds(items, t) <==> i in kept
    requires forall i :: i in items ==> i < n0
    requires forall i :: i in TaskItemIds(items, t) ==> items[i].orderNum < first
    ensures Checklist(items + Inserted(n0, t, rows, first), t) == kept + Fresh(n0, |rows|)
  {
    var ins := Inserted(n0, t, rows, first);
    var all := items + ins;
    var ids := kept + Fresh(n0, |rows|);
    InsertedItems(n0, t, rows, first);
    forall k | 0 <= k < |kept| ensures kept[k] in items && kept[k] !in ins && items[kept[k]].orderNum < first {
      var x := kept[k];
      assert x in kept;
      assert x in TaskItemIds(items, t);
      assert x < n0;
    }
    forall k | 0 <= k < |ids|
      ensures ids[k] in all && all[ids[k]].orderNum == if k < |kept| then items[kept[k]].orderNum else first + (k - |kept|)
    {
      if k < |kept| {
        assert ids[k] == kept[k];
        assert all[kept[k]] == items[kept[k]];
      } else {
        var i := n0 + (k - |kept|);
        assert |ids| == |kept| + |rows|;
        assert n0 <= i < n0 + |rows|;
        assert i in ins;
        assert ids[k] == Fresh(n0, |rows|)[k - |kept|] == i;
        assert all[i] == ins[i];
      }
    }
    assert StrictlyOrdered(all, ids);
    forall i ensures i in ids <==> i in TaskItemIds(all, t) {
      if n0 <= i < n0 + |rows| {
        assert Fresh(n0, |rows|)[i - n0] == i;
        assert ids[|kept| + (i - n0)] == i;
      } else if i in items {
        assert all[i] == items[i];
        assert i !in Fresh(n0, |rows|);
        assert i in ids <==> i in kept;
      } else {
        assert i !in all;
        assert i !in kept;
        assert i !in Fresh(n0, |rows|);
      }
    }
    ChecklistUnique(all, t, ids);
  }

  /**
   * The items table after the deletions and updates: the marked items, all
   * of task `t`, are gone, every other item of task `t` is revised, and other
   * tasks' items are as they were.
   */
  ghost predicate Revisions(before: map<int, Item>, after: map<int, Item>, t: int, form: map<string, seq<string>>,
                            files: map<int, string>, ts: int, marked: set<int>)
  {
    marked <= TaskItemIds(before, t) &&
    after.Keys == before.Keys - marked &&
    forall i :: i in after ==>
      after[i] == if before[i].taskId == t then Revised(before[i], form, files, ts, i) else before[i]
  }

  /** Deleting the marked items and applying the queued updates of the kept ones gives `Revisions`. */
  lemma RevisionsHold(items0: map<int, Item>, items1: map<int, Item>, items2: map<int, Item>, t: int,
                      form: map<string, seq<string>>, files: map<int, string>, ts: int,
                      kept: seq<int>, marked: set<int>, ups: seq<Update>)
    requires marked <= TaskItemIds(items0, t)
    requires forall i :: i in kept <==> i in items0 && items0[i].taskId == t && i !in marked
    requires items1 == items0 - marked
    requires SameShape(items1, items2)
    requires forall x :: x in kept ==> x in items0
    requires ups == UpdatesOf(items0, form, files, ts, kept)
    requires forall k :: 0 <= k < |ups| ==> ups[k].id in items1
    requires forall k :: 0 <= k < |ups| ==> items2[ups[k].id] == Apply(items1[ups[k].id], ups[k])
    requires forall i :: i in items1 && i !in UpdatedIds(ups) ==> items2[i] == items1[i]
    ensures Revisions(items0, items2, t, form, files, ts, marked)
  {
    forall i | i in items2
      ensures items2[i] == if items0[i].taskId == t then Revised(items0[i], form, files, ts, i) else items0[i]
    {
      if items0[i].taskId == t {
        assert i in kept;
        var k :| 0 <= k < |kept| && kept[k] == i;
        assert ups[k] == UpdateOf(items0, form, files, ts, i);
      } else {
        assert i !in kept;
        assert i !in UpdatedIds(ups);
      }
    }
  }

  /**
   * The deletion and update phase: the listing of task `t` is classified,
   * the marked items are deleted with their completion records, and the
   * others are updated.
   */
  method ReviseItems(s: Store, t: int, form: map<string, seq<string>>, files: map<int, string>, ts: int)
    requires s.Valid()
    modifies s`items, s`completions
    ensures s.Valid()
    ensures var marked := Members(MarkedIds(form, Checklist(old(s.items), t)));
      s.completions == Forget(old(s.completions), marked) &&
      Revisions(old(s.items), s.items, t, form, files, ts, marked)
    ensures Checklist(s.items, t) == KeptIds(form, Checklist(old(s.items), t))
  {
    ghost var items0 := s.items;
    var listed := s.ItemsByOrder(t);
    ChecklistListed(s.items, t);
    var toDelete, toUpdate := Classify(s.items, listed, form, files, ts);
    ghost var kept := KeptIds(form, listed);
    ghost var marked := Members(toDelete);
    DeleteItems(s, toDelete);
    ghost var items1 := s.items;
    SurvivorsListed(items0, s.items, t, form);
    assert forall j, k :: 0 <= j < k < |kept| ==> kept[j] != kept[k];
    UpdateItems(s, toUpdate);
    SurvivorsListed(items0, s.items, t, form);
    ChecklistUnique(s.items, t, kept);
    ClassifiedParts(items0, t, form, listed);
    RevisionsHold(items0, items1, s.items, t, form, files, ts, kept, marked, toUpdate);
  }

  /** The marked ids are some of the task's items, and the kept ids are the rest. */
  lemma ClassifiedParts(items: map<int, Item>, t: int, form: map<string, seq<string>>, listed: seq<int>)
    requires DistinctOrders(items) && listed == Checklist(items, t)
    ensures Members(MarkedIds(form, listed)) <= TaskItemIds(items, t)
    ensures forall i :: i in KeptIds(form, listed) <==>
      i in items && items[i].taskId == t && i !in Members(MarkedIds(form, listed))
  {
    var marked := MarkedIds(form, listed);
    ChecklistSpec(items, t);
    ClassifiedMembers(form, listed);
    forall i | i in Members(marked) ensures i in TaskItemIds(items, t) {
      assert i in marked;
      assert i in listed;
    }
    forall i ensures i in KeptIds(form, listed) <==> i in items && items[i].taskId == t && i !in Members(marked) {
      assert i in marked <==> i in Members(marked);
      assert i in listed <==> i in TaskItemIds(items, t);
    }
  }

  /**
   * The items table after appending `rows` to task `t`'s checklist `listed`
   * and renumbering: the new rows take the ids from `n0` and follow the old
   * items, `order_num`s are 0, 1, 2, ... in that order, and other tasks'
   * items are as they were.
   */
  ghost predicate Extended(before: map<int, Item>, after: map<int, Item>, t: int, listed: seq<int>, rows: seq<NewRow>, n0: int)
  {
    Checklist(after, t) == listed + Fresh(n0, |rows|) &&
    (forall i :: i in after <==> i in before || n0 <= i < n0 + |rows|) &&
    (forall k :: 0 <= k < |listed| ==>
      listed[k] in before && listed[k] in after && after[listed[k]] == before[listed[k]].(orderNum := k)) &&
    (forall j :: 0 <= j < |rows| ==> after[n0 + j] == Item(t, rows[j].description, rows[j].attachment, |listed| + j)) &&
    (forall i :: i in before && before[i].taskId != t ==> after[i] == before[i])
  }

  /**
   * The insertion and renumbering phase: the non-blank new descriptions are
   * appended after the task's last item, then the task's items are numbered
   * 0, 1, 2, ... in `order_num` order.
   */
  method AppendRows(s: Store, t: int, descs: seq<string>, files: map<int, string>, ts: int)
    requires s.Valid() && t in s.tasks
    modifies s`items, s`nextItemId
    ensures s.Valid()
    ensures s.nextItemId == old(s.nextItemId) + |NewRows(descs, files, ts)|
    ensures Extended(old(s.items), s.items, t, Checklist(old(s.items), t), NewRows(descs, files, ts), old(s.nextItemId))
    ensures forall i :: i in old(s.items) ==> i < old(s.nextItemId)
  {
    ghost var items2, n0 := s.items, s.nextItemId;
    ghost var listed := Checklist(items2, t);
    ghost var rows := NewRows(descs, files, ts);
    var maxOrder := MaxOrderNum(s.items, t);
    AddItems(s, t, descs, files, ts, maxOrder + 1);
    ChecklistSpec(items2, t);
    AppendedChecklist(items2, t, listed, n0, rows, maxOrder + 1);
    ghost var items3 := s.items;
    var all := s.ItemsByOrder(t);
    Renumber(s, t, all);
    RenumberedAppend(items2, items3, s.items, t, listed, all, n0, rows, maxOrder + 1);
  }

  /** Renumbering the appended checklist numbers the old items first, then the new rows. */
  lemma RenumberedAppend(items2: map<int, Item>, items3: map<int, Item>, items4: map<int, Item>, t: int,
                         listed: seq<int>, all: seq<int>, n0: int, rows: seq<NewRow>, first: int)
    requires items3 == items2 + Inserted(n0, t, rows, first)
    requires forall i :: i in items2 ==> i < n0
    requires forall k :: 0 <= k < |listed| ==> listed[k] in items2
    requires all == listed + Fresh(n0, |rows|) && Checklist(items4, t) == all
    requires items4.Keys == items3.Keys
    requires forall k :: 0 <= k < |all| ==> all[k] in items3 && items4[all[k]] == items3[all[k]].(orderNum := k)
    requires forall i :: i in items3 && items3[i].taskId != t ==> items4[i] == items3[i]
    ensures Extended(items2, items4, t, listed, rows, n0)
  {
    InsertedItems(n0, t, rows, first);
    forall k | 0 <= k < |listed| ensures listed[k] in items4 && items4[listed[k]] == items2[listed[k]].(orderNum := k) {
      assert all[k] == listed[k];
    }
    forall j | 0 <= j < |rows| ensures items4[n0 + j] == Item(t, rows[j].description, rows[j].attachment, |listed| + j) {
      assert all[|listed| + j] == n0 + j;
    }
  }

  /**
   * `edit_task_post_handler` for task `t`, on the submitted `fields` and the
   * `form` collected from them, which agree on the new descriptions.
   * `existingFiles` maps an item id to the name of the file uploaded for it,
   * and `ts` is the clock reading the stored names carry. An unknown task
   * changes nothing.
   *
   * New rows get their files by the corrected pairing `NewRowFiles(fields)`.
   * The handler as written pairs them positionally,
   * `PositionalFiles(Uploads(fields, NewItemFile))`, which moves a file onto
   * an earlier row whenever a row without a file precedes it
   * (`PositionalFilesShiftRows`); the two agree whenever every new row
   * carries a file (`PairingsAgreeOnFullRows`).
   */
  method EditTask(s: Store, t: int, fields: seq<Field>, form: map<string, seq<string>>,
                  existingFiles: map<int, string>, ts: int)
    requires s.Valid() && Lookup(form, NewItemDescription) == TextValues(fields, NewItemDescription)
    modifies s
    ensures s.Valid()
    ensures s.companies == old(s.companies) && s.nextTaskId == old(s.nextTaskId)
    ensures t !in old(s.tasks) ==>
      s.tasks == old(s.tasks) && s.items == old(s.items) && s.completions == old(s.completions) &&
      s.nextItemId == old(s.nextItemId)
    ensures t in old(s.tasks) ==>
      s.tasks == old(s.tasks)[t := EditedTask(old(s.tasks)[t], form)] &&
      s.completions == Forget(old(s.completions), Members(MarkedIds(form, Checklist(old(s.items), t)))) &&
      s.nextItemId == old(s.nextItemId) + |NewRows(Lookup(form, NewItemDescription), NewRowFiles(fields), ts)| &&
      EditedChecklist(old(s.items), s.items, t, form, existingFiles, NewRowFiles(fields), ts, old(s.nextItemId))
  {
    var newFiles := NewRowFiles(fields);
    EditWithFiles(s, t, form, existingFiles, newFiles, ts);
  }

  /** The edit, once each new row's index is mapped to the name of its file in `newFiles`. */
  method EditWithFiles(s: Store, t: int, form: map<string, seq<string>>, existingFiles: map<int, string>,
                       newFiles: map<int, string>, ts: int)
    requires s.Valid()
    modifies s
    ensures s.Valid()
    ensures s.companies == old(s.companies) && s.nextTaskId == old(s.nextTaskId)
    ensures t !in old(s.tasks) ==>
      s.tasks == old(s.tasks) && s.items == old(s.items) && s.completions == old(s.completions) &&
      s.nextItemId == old(s.nextItemId)
    ensures t in old(s.tasks) ==>
      s.tasks == old(s.tasks)[t := EditedTask(old(s.tasks)[t], form)] &&
      s.completions == Forget(old(s.completions), Members(MarkedIds(form, Checklist(old(s.items), t)))) &&
      s.nextItemId == old(s.nextItemId) + |NewRows(Lookup(form, NewItemDescription), newFiles, ts)| &&
      EditedChecklist(old(s.items), s.items, t, form, existingFiles, newFiles, ts, old(s.nextItemId))
  {
    if t !in s.tasks {
      return;
    }
    s.tasks := s.tasks[t := EditedTask(s.tasks[t], form)];
    ghost var items0 := s.items;
    ReviseItems(s, t, form, existingFiles, ts);
    ghost var items2 := s.items;
    AppendRows(s, t, Lookup(form, NewItemDescription), newFiles, ts);
    ghost var listed := Checklist(items0, t);
    ghost var kept := KeptIds(form, listed);
    RevisedTaskItems(items0, items2, t, form, existingFiles, ts, Members(MarkedIds(form, listed)), kept);
    EditComposed(items0, items2, s.items, t, form, existingFiles, ts, kept, Members(MarkedIds(form, listed)),
                 NewRows(Lookup(form, NewItemDescription), newFiles, ts), old(s.nextItemId));
  }

  /** The items listed for task `t` after the revisions were the task's items before them. */
  lemma RevisedTaskItems(items0: map<int, Item>, items2: map<int, Item>, t: int, form: map<string, seq<string>>,
                         files: map<int, string>, ts: int, marked: set<int>, kept: seq<int>)
    requires Revisions(items0, items2, t, form, files, ts, marked)
    requires DistinctOrders(items2) && kept == Checklist(items2, t)
    ensures forall k :: 0 <= k < |kept| ==> kept[k] in items0 && items0[kept[k]].taskId == t
  {
    ChecklistSpec(items2, t);
    forall k | 0 <= k < |kept| ensures kept[k] in items0 && items0[kept[k]].taskId == t {
      var x := kept[k];
      assert x in Checklist(items2, t);
      assert x in TaskItemIds(items2, t);
      assert x in items2 && items2[x].taskId == t;
    }
  }

  /** The two phases together leave the items table as `EditedTable` describes. */
  lemma EditComposed(items0: map<int, Item>, items2: map<int, Item>, items4: map<int, Item>, t: int,
                     form: map<string, seq<string>>, files: map<int, string>, ts: int,
                     kept: seq<int>, marked: set<int>, rows: seq<NewRow>, n0: int)
    requires Revisions(items0, items2, t, form, files, ts, marked)
    requires Extended(items2, items4, t, kept, rows, n0)
    requires forall k :: 0 <= k < |kept| ==> kept[k] in items0 && items0[kept[k]].taskId == t
    ensures EditedTable(items0, items4, t, form, files, ts, kept, marked, rows, n0)
  {
    forall i | i in items0 && items0[i].taskId != t ensures i in items4 && items4[i] == items0[i] {
      assert i !in marked;
      assert i in items2;
    }
  }
}
