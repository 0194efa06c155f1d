/**
 * Form handling: the field loop of `parse_form_data`, which pairs every
 * checklist upload with the row of the description before it, and the id
 * list of the bulk show/hide form.
 *
 * The multipart decoding itself is not modelled: a form arrives as the list
 * of its fields in submission order.
 */
module Forms {
  import opened Wrappers
  import opened Text

  /** One submitted field; `filename` is empty unless a file was chosen. */
  datatype Field = Field(name: string, value: string, filename: string)

  /**
   * An entry of the file table: a checklist upload carries the row of the
   * checklist description it belongs to, any other upload just the field.
   */
  datatype Upload = RowUpload(row: int, field: Field) | PlainUpload(field: Field)

  const ItemDescription: string := "item_description"
  const ItemFile: string := "item_file"

  /** A field collected as text: every description, and every field without a file. */
  predicate IsText(f: Field) {
    f.name == ItemDescription || f.filename == ""
  }

  /** The text values submitted under `name`, in submission order. */
  function TextValues(fields: seq<Field>, name: string): (r: seq<string>)
    ensures |r| <= |fields|
  {
    if fields == [] then []
    else
      var last := fields[|fields| - 1];
      TextValues(fields[..|fields| - 1], name) + (if last.name == name && IsText(last) then [last.value] else [])
  }

  /** The number of checklist descriptions among `fields`. */
  function DescriptionCount(fields: seq<Field>): nat {
    |TextValues(fields, ItemDescription)|
  }

  /**
   * The uploads submitted under `name`, in submission order; a checklist
   * upload is paired with the index of the last description before it, or -1
   * when none came before.
   */
  function Uploads(fields: seq<Field>, name: string): (r: seq<Upload>)
    ensures |r| <= |fields|
  {
    if fields == [] then []
    else
      var pre, last := fields[..|fields| - 1], fields[|fields| - 1];
      Uploads(pre, name) +
        (if last.name == name && !IsText(last) then
           [if name == ItemFile then RowUpload(DescriptionCount(pre) - 1, last) else PlainUpload(last)]
         else [])
  }

  function Lookup<T>(m: map<string, seq<T>>, key: string): seq<T> {
    if key in m then m[key] else []
  }

  /** `form` holds exactly the text values of `fields`, grouped by name. */
  ghost predicate FormAgrees(form: map<string, seq<string>>, fields: seq<Field>) {
    forall name :: Lookup(form, name) == TextValues(fields, name) && (name in form ==> form[name] != [])
  }

  /** `files` holds exactly the uploads of `fields`, grouped by name. */
  ghost predicate FilesAgrees(files: map<string, seq<Upload>>, fields: seq<Field>) {
    forall name :: Lookup(files, name) == Uploads(fields, name) && (name in files ==> files[name] != [])
  }

  /** The table entry for an upload field at the running description index. */
  function UploadOf(f: Field, current: int): Upload {
    if f.name == ItemFile then RowUpload(current, f) else PlainUpload(f)
  }

  /** One more field adds at most one value, under its own name. */
  lemma TextValuesSnoc(pre: seq<Field>, f: Field, name: string)
    ensures TextValues(pre + [f], name) == TextValues(pre, name) + (if f.name == name && IsText(f) then [f.value] else [])
  {
    var fs := pre + [f];
    assert fs[..|fs| - 1] == pre;
  }

  lemma UploadsSnoc(pre: seq<Field>, f: Field, name: string)
    ensures Uploads(pre + [f], name) ==
      Uploads(pre, name) + (if f.name == name && !IsText(f) then [UploadOf(f, DescriptionCount(pre) - 1)] else [])
  {
    var fs := pre + [f];
    assert fs[..|fs| - 1] == pre;
  }

  /** A text field appends its value under its name and leaves the uploads alone. */
  lemma TextStep(form: map<string, seq<string>>, files: map<string, seq<Upload>>, pre: seq<Field>, f: Field)
    requires IsText(f) && FormAgrees(form, pre) && FilesAgrees(files, pre)
    ensures FormAgrees(form[f.name := Lookup(form, f.name) + [f.value]], pre + [f])
    ensures FilesAgrees(files, pre + [f])
  {
    var form' := form[f.name := Lookup(form, f.name) + [f.value]];
    forall name
      ensures Lookup(form', name) == TextValues(pre + [f], name) && (name in form' ==> form'[name] != [])
      ensures Lookup(files, name) == Uploads(pre + [f], name)
    {
      TextValuesSnoc(pre, f, name);
      UploadsSnoc(pre, f, name);
    }
  }

  /** An upload appends its entry under its name and leaves the text values alone. */
  lemma UploadStep(form: map<string, seq<string>>, files: map<string, seq<Upload>>, pre: seq<Field>, f: Field)
    requires !IsText(f) && FormAgrees(form, pre) && FilesAgrees(files, pre)
    ensures FormAgrees(form, pre + [f])
    ensures FilesAgrees(files[f.name := Lookup(files, f.name) + [UploadOf(f, DescriptionCount(pre) - 1)]], pre + [f])
  {
    var files' := files[f.name := Lookup(files, f.name) + [UploadOf(f, DescriptionCount(pre) - 1)]];
    forall name
      ensures Lookup(form, name) == TextValues(pre + [f], name)
      ensures Lookup(files', name) == Uploads(pre + [f], name) && (name in files' ==> files'[name] != [])
    {
      TextValuesSnoc(pre, f, name);
      UploadsSnoc(pre, f, name);
    }
  }

  /**
   * The field loop of `parse_form_data`: text values are grouped by name,
   * uploads by name, and each checklist upload is tagged with the running
   * description index.
   */
  method CollectFields(fields: seq<Field>) returns (form: map<string, seq<string>>, files: map<string, seq<Upload>>)
    ensures FormAgrees(form, fields)
    ensures FilesAgrees(files, fields)
  {
    form, files := map[], map[];
    var current := -1;
    for i := 0 to |fields|
      invariant current == DescriptionCount(fields[..i]) - 1
      invariant FormAgrees(form, fields[..i])
      invariant FilesAgrees(files, fields[..i])
    {
      var field := fields[i];
      ghost var pre := fields[..i];
      assert fields[..i + 1] == pre + [field];
      TextValuesSnoc(pre, field, ItemDescription);
      if field.name == ItemDescription {
        TextStep(form, files, pre, field);
        current := current + 1;
        form := form[ItemDescription := Lookup(form, ItemDescription) + [field.value]];
      } else if field.filename != "" {
        UploadStep(form, files, pre, field);
        if field.name == ItemFile {
          files := files[ItemFile := Lookup(files, ItemFile) + [RowUpload(current, field)]];
        } else {
          files := files[field.name := Lookup(files, field.name) + [PlainUpload(field)]];
        }
      } else {
        TextStep(form, files, pre, field);
        form := form[field.name := Lookup(form, field.name) + [field.value]];
      }
    }
    assert fields[..|fields|] == fields;
  }

  /** The text values under `name`, read back from the collected form. */
  lemma FormLookup(form: map<string, seq<string>>, fields: seq<Field>, name: string)
    requires FormAgrees(form, fields)
    ensures name in form <==> TextValues(fields, name) != []
    ensures name in form ==> form[name] == TextValues(fields, name)
  {
    assert Lookup(form, name) == TextValues(fields, name);
  }

  /** Every checklist upload names a row in -1 .. (number of descriptions - 1). */
  lemma {:induction false} UploadRowsInRange(fields: seq<Field>)
    ensures forall u :: u in Uploads(fields, ItemFile) ==>
      u.RowUpload? && -1 <= u.row < DescriptionCount(fields)
  {
    if fields != [] {
      var pre := fields[..|fields| - 1];
      UploadRowsInRange(pre);
      DescriptionCountGrows(pre, fields);
    }
  }

  lemma DescriptionCountGrows(pre: seq<Field>, fields: seq<Field>)
    requires |fields| >= 1 && pre == fields[..|fields| - 1]
    ensures DescriptionCount(pre) <= DescriptionCount(fields)
  {
  }

  /**
   * Uploads that follow a description, with no other description in between,
   * all belong to that description's row.
   */
  lemma {:induction false} UploadsFollowDescription(pre: seq<Field>, d: Field, post: seq<Field>)
    requires d.name == ItemDescription
    requires forall k :: 0 <= k < |post| ==> post[k].name != ItemDescription
    ensures var before := Uploads(pre + [d], ItemFile);
      var all := Uploads(pre + [d] + post, ItemFile);
      |before| <= |all| && all[..|before|] == before &&
      forall k :: |before| <= k < |all| ==> all[k].RowUpload? && all[k].row == DescriptionCount(pre)
    decreases |post|
  {
    var head := pre + [d];
    assert head[..|head| - 1] == pre;
    assert DescriptionCount(head) == DescriptionCount(pre) + 1;
    if post == [] {
      assert pre + [d] + post == head;
    } else {
      var post' := post[..|post| - 1];
      UploadsFollowDescription(pre, d, post');
      var fs := pre + [d] + post;
      assert fs[..|fs| - 1] == pre + [d] + post';
      DescriptionsWithout(head, post');
    }
  }

  /** Fields that are not descriptions do not change the description count. */
  lemma {:induction false} DescriptionsWithout(head: seq<Field>, post: seq<Field>)
    requires forall k :: 0 <= k < |post| ==> post[k].name != ItemDescription
    ensures DescriptionCount(head + post) == DescriptionCount(head)
    decreases |post|
  {
    if post != [] {
      var fs := head + post;
      assert fs[..|fs| - 1] == head + post[..|post| - 1];
      DescriptionsWithout(head, post[..|post| - 1]);
    } else {
      assert head + post == head;
    }
  }

  /** Uploads before the first description are tagged -1. */
  lemma {:induction false} UploadsBeforeAnyDescription(fields: seq<Field>)
    requires forall k :: 0 <= k < |fields| ==> fields[k].name != ItemDescription
    ensures forall u :: u in Uploads(fields, ItemFile) ==> u.RowUpload? && u.row == -1
  {
    if fields != [] {
      var pre := fields[..|fields| - 1];
      UploadsBeforeAnyDescription(pre);
      DescriptionsWithout([], pre);
      assert [] + pre == pre;
    }
  }

  // ---------------------------------------------------------------------------
  // Reading single values

  /** `form.get(name, [default])[0]`: the first value submitted under `name`, or `default`. */
  function First(form: map<string, seq<string>>, name: string, default: string): (r: string)
    ensures name !in form || form[name] == [] ==> r == default
    ensures name in form && form[name] != [] ==> r == form[name][0]
  {
    var values := Lookup(form, name);
    if values == [] then default else values[0]
  }

  /**
   * The year and month parameters: the first submitted value, or the
   * current one written out as text, read with `int()`, falling back to the
   * current one when that fails.
   */
  function IntParam(values: seq<string>, current: int): int {
    var text := if values == [] then IntToString(current) else values[0];
    ParseInt(text).GetOr(current)
  }

  /** A missing parameter reads as the current value: its text form parses back. */
  lemma IntParamMissing(current: int)
    ensures IntParam([], current) == current
  {
    ParseIntToString(current);
  }

  /** A submitted value is read when it parses, and the current value is used when it does not. */
  lemma IntParamGiven(values: seq<string>, current: int)
    requires values != []
    ensures ParseInt(values[0]).Some? ==> IntParam(values, current) == ParseInt(values[0]).value
    ensures ParseInt(values[0]).None? ==> IntParam(values, current) == current
  {
  }

  // ---------------------------------------------------------------------------
  // Row-paired uploads

  /**
   * The uploads under `fileName`, each paired with the index of the last
   * `descName` text before it (-1 when none): the pairing `parse_form_data`
   * gives checklist uploads, for any pair of field names.
   */
  function RowUploads(fields: seq<Field>, descName: string, fileName: string): (r: seq<Upload>)
    ensures forall k :: 0 <= k < |r| ==> r[k].RowUpload?
  {
    if fields == [] then []
    else
      var pre, last := fields[..|fields| - 1], fields[|fields| - 1];
      RowUploads(pre, descName, fileName) +
        (if last.name == fileName && !IsText(last) then [RowUpload(|TextValues(pre, descName)| - 1, last)] else [])
  }

  /** For checklist descriptions and uploads the general pairing is the one `parse_form_data` records. */
  lemma {:induction false} RowUploadsOfChecklist(fields: seq<Field>)
    ensures RowUploads(fields, ItemDescription, ItemFile) == Uploads(fields, ItemFile)
  {
    if fields != [] {
      RowUploadsOfChecklist(fields[..|fields| - 1]);
    }
  }

  /** No upload after the `k`-th one is for the same row. */
  predicate LastForRow(uploads: seq<Upload>, k: int)
    requires 0 <= k < |uploads| && uploads[k].RowUpload?
  {
    forall j :: k < j < |uploads| && uploads[j].RowUpload? ==> uploads[j].row != uploads[k].row
  }

  /**
   * `{idx: fs for idx, fs in file_entries}`: each row to the file name of its
   * upload, a later upload for the same row replacing an earlier one.
   */
  function RowFileMap(uploads: seq<Upload>): (r: map<int, string>)
    ensures forall row :: row in r <==> exists k :: 0 <= k < |uploads| && uploads[k].RowUpload? && uploads[k].row == row
  {
    if uploads == [] then map[]
    else
      var pre, u := uploads[..|uploads| - 1], uploads[|uploads| - 1];
      assert forall k :: 0 <= k < |pre| ==> pre[k] == uploads[k];
      if u.RowUpload? then RowFileMap(pre)[u.row := u.field.filename] else RowFileMap(pre)
  }

  /** The last upload for a row decides that row's file: a later upload replaces an earlier one. */
  lemma {:induction false} RowFileMapLastWins(uploads: seq<Upload>, k: int)
    requires 0 <= k < |uploads| && uploads[k].RowUpload? && LastForRow(uploads, k)
    ensures uploads[k].row in RowFileMap(uploads)
    ensures RowFileMap(uploads)[uploads[k].row] == uploads[k].field.filename
  {
    var n := |uploads| - 1;
    var pre, u := uploads[..n], uploads[n];
    if k < n {
      assert pre[k] == uploads[k];
      assert LastForRow(pre, k) by {
        forall j | k < j < |pre| && pre[j].RowUpload? ensures pre[j].row != pre[k].row {
          assert pre[j] == uploads[j];
        }
      }
      RowFileMapLastWins(pre, k);
      if u.RowUpload? {
        assert u.row != uploads[k].row;
      }
    }
  }

  /** The fields of a form of rows, each row a description followed by its file input (file name empty when no file was chosen). */
  function RowsForm(rows: seq<(string, string)>, descName: string, fileName: string): (r: seq<Field>)
    ensures |r| == 2 * |rows|
  {
    if rows == [] then []
    else
      var n := |rows| - 1;
      RowsForm(rows[..n], descName, fileName) + [Field(descName, rows[n].0, ""), Field(fileName, "", rows[n].1)]
  }

  /** The rows that came with a file, to that file's name. */
  function ChosenFiles(rows: seq<(string, string)>): map<int, string> {
    map idx | 0 <= idx < |rows| && rows[idx].1 != "" :: rows[idx].1
  }

  lemma RowUploadsSnoc(pre: seq<Field>, f: Field, descName: string, fileName: string)
    ensures RowUploads(pre + [f], descName, fileName) == RowUploads(pre, descName, fileName) +
      (if f.name == fileName && !IsText(f) then [RowUpload(|TextValues(pre, descName)| - 1, f)] else [])
  {
    var fs := pre + [f];
    assert fs[..|fs| - 1] == pre;
  }

  lemma RowFileMapSnoc(ups: seq<Upload>, u: Upload)
    ensures RowFileMap(ups + [u]) == if u.RowUpload? then RowFileMap(ups)[u.row := u.field.filename] else RowFileMap(ups)
  {
    var us := ups + [u];
    assert us[..|us| - 1] == ups;
  }

  /** One more row: its description, then its file input. */
  lemma RowsFormSnoc(rows: seq<(string, string)>, descName: string, fileName: string)
    requires rows != []
    ensures var n := |rows| - 1;
      RowsForm(rows, descName, fileName) ==
        RowsForm(rows[..n], descName, fileName) + [Field(descName, rows[n].0, "")] + [Field(fileName, "", rows[n].1)]
  {
  }

  lemma ChosenFilesSnoc(rows: seq<(string, string)>)
    requires rows != []
    ensures var n := |rows| - 1;
      ChosenFiles(rows) == if rows[n].1 != "" then ChosenFiles(rows[..n])[n := rows[n].1] else ChosenFiles(rows[..n])
  {
  }

  /**
   * Pairing by the last description puts every chosen file on its own row,
   * whichever other rows came without a file.
   */
  lemma {:induction false} RowPairingKeepsRows(rows: seq<(string, string)>, descName: string, fileName: string)
    requires descName != fileName && fileName != ItemDescription
    ensures |TextValues(RowsForm(rows, descName, fileName), descName)| == |rows|
    ensures RowFileMap(RowUploads(RowsForm(rows, descName, fileName), descName, fileName)) == ChosenFiles(rows)
  {
    if rows != [] {
      var n := |rows| - 1;
      var pre := RowsForm(rows[..n], descName, fileName);
      var d, f := Field(descName, rows[n].0, ""), Field(fileName, "", rows[n].1);
      RowPairingKeepsRows(rows[..n], descName, fileName);
      RowsFormSnoc(rows, descName, fileName);
      TextValuesSnoc(pre, d, descName);
      TextValuesSnoc(pre + [d], f, descName);
      RowUploadsSnoc(pre, d, descName, fileName);
      RowUploadsSnoc(pre + [d], f, descName, fileName);
      var ups' := RowUploads(pre, descName, fileName);
      var fs := RowsForm(rows, descName, fileName);
      assert fs == pre + [d] + [f];
      assert IsText(d);
      assert |TextValues(pre + [d], descName)| == n + 1;
      assert RowUploads(pre + [d], descName, fileName) == ups';
      ChosenFilesSnoc(rows);
      if rows[n].1 != "" {
        assert !IsText(f);
        assert RowUploads(fs, descName, fileName) == ups' + [RowUpload(n, f)];
        RowFileMapSnoc(ups', RowUpload(n, f));
      } else {
        assert IsText(f);
        assert RowUploads(fs, descName, fileName) == ups';
      }
    }
  }

  /** The checklist pairing of `parse_form_data` puts every chosen file on its own row. */
  lemma ChecklistRowsKeepFiles(rows: seq<(string, string)>)
    ensures RowFileMap(Uploads(RowsForm(rows, ItemDescription, ItemFile), ItemFile)) == ChosenFiles(rows)
  {
    RowUploadsOfChecklist(RowsForm(rows, ItemDescription, ItemFile));
    RowPairingKeepsRows(rows, ItemDescription, ItemFile);
  }

  // ---------------------------------------------------------------------------
  // The id list of the bulk visibility form

  /** What `int()` makes of each text, in order. */
  function Readings(texts: seq<string>): (r: seq<Option<int>>)
    ensures |r| == |texts| && forall k :: 0 <= k < |texts| ==> r[k] == ParseInt(texts[k])
  {
    if texts == [] then [] else Readings(texts[..|texts| - 1]) + [ParseInt(texts[|texts| - 1])]
  }

  /** The values present among `vs`, in order. */
  function Present(vs: seq<Option<int>>): (r: seq<int>)
    ensures |r| <= |vs|
  {
    if vs == [] then []
    else
      var last := vs[|vs| - 1];
      Present(vs[..|vs| - 1]) + (if last.Some? then [last.value] else [])
  }

  lemma {:induction false} PresentMembers(vs: seq<Option<int>>, id: int)
    ensures id in Present(vs) <==> Some(id) in vs
  {
    if vs != [] {
      var pre := vs[..|vs| - 1];
      PresentMembers(pre, id);
      assert vs == pre + [vs[|vs| - 1]];
    }
  }

  /** The ids `int()` accepts, in order; the others are skipped. */
  function ParsedIds(texts: seq<string>): (r: seq<int>)
    ensures |r| <= |texts|
  {
    Present(Readings(texts))
  }

  /** The loop of `update_tasks_visibility_handler` that collects the task ids. */
  method ParseTaskIds(texts: seq<string>) returns (ids: seq<int>)
    ensures ids == ParsedIds(texts)
  {
    ids := [];
    for i := 0 to |texts|
      invariant ids == ParsedIds(texts[..i])
    {
      var v := ParseInt(texts[i]);
      assert texts[..i + 1][..i] == texts[..i];
      assert Readings(texts[..i + 1]) == Readings(texts[..i]) + [v];
      assert (Readings(texts[..i]) + [v])[..i] == Readings(texts[..i]);
      if v.Some? {
        ids := ids + [v.value];
      }
    }
    assert texts[..|texts|] == texts;
  }

  /** An id is collected exactly when some submitted text reads as it. */
  lemma ParsedIdsMembers(texts: seq<string>, id: int)
    ensures id in ParsedIds(texts) <==> exists k :: 0 <= k < |texts| && ParseInt(texts[k]) == Some(id)
  {
    var vs := Readings(texts);
    PresentMembers(vs, id);
    if Some(id) in vs {
      var k :| 0 <= k < |vs| && vs[k] == Some(id);
      assert ParseInt(texts[k]) == Some(id);
    }
    if exists k :: 0 <= k < |texts| && ParseInt(texts[k]) == Some(id) {
      var k :| 0 <= k < |texts| && ParseInt(texts[k]) == Some(id);
      assert vs[k] == Some(id);
    }
  }
}
