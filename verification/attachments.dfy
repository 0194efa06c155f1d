/**
 * Names under which uploaded checklist attachments are stored, and the
 * recovery of the uploaded file's own name when the attachment is downloaded.
 *
 * An upload is stored as `{ts}_{idx}_{name}` (a new task's row index, or an
 * existing item's id) or, for a row added while editing a task,
 * `{ts}_new_{idx}_{name}`; `ts` is the whole-second timestamp of the upload.
 */
module Attachments {
  import opened Text

  /** `f"{ts}_{idx}_{name}"`. */
  function StoredName(ts: int, idx: int, name: string): string {
    IntToString(ts) + "_" + IntToString(idx) + "_" + name
  }

  /** `f"{ts}_new_{idx}_{name}"`. */
  function NewRowStoredName(ts: int, idx: int, name: string): string {
    IntToString(ts) + "_new_" + IntToString(idx) + "_" + name
  }

  /**
   * The download handler's recovery as written: `filename.split('_', 2)`, and
   * the third part when there is one, otherwise the whole name.
   */
  function OriginalNameAsWritten(filename: string): (r: string)
    ensures |r| <= |filename| && r == filename[|filename| - |r|..]
  {
    var parts := SplitMax(filename, '_', 2);
    if |parts| > 2 then
      SuffixOfSplit(filename, parts);
      parts[2]
    else filename
  }

  /**
   * The recovery the three storage formats call for: the `_new_` format has
   * one more underscore-separated field before the name.
   */
  function OriginalName(filename: string): (r: string)
    ensures |r| <= |filename| && r == filename[|filename| - |r|..]
  {
    var parts := SplitMax(filename, '_', 2);
    if |parts| <= 2 then filename
    else
      SuffixOfSplit(filename, parts);
      if parts[1] == "new" then
        var rest := SplitMax(parts[2], '_', 1);
        if |rest| > 1 then
          SuffixOfSplit(parts[2], rest);
          rest[1]
        else parts[2]
      else parts[2]
  }

  /** The last part of a split is a suffix of the split string. */
  lemma SuffixOfSplit(s: string, parts: seq<string>)
    requires |parts| >= 2 && Join(parts, '_') == s
    ensures |parts[|parts| - 1]| <= |s| && parts[|parts| - 1] == s[|s| - |parts[|parts| - 1]|..]
  {
    var init, last := parts[..|parts| - 1], parts[|parts| - 1];
    assert parts == init + [last];
    JoinAppend(init, [last], '_');
  }

  lemma NoUnderscoreInNumber(n: int)
    ensures '_' !in IntToString(n)
  {
    var s := IntToString(n);
    assert forall k :: 0 <= k < |s| ==> s[k] != '_';
  }

  /** The three fields of a stored name. */
  lemma StoredNameParts(ts: int, idx: int, name: string)
    ensures SplitMax(StoredName(ts, idx, name), '_', 2) == [IntToString(ts), IntToString(idx), name]
  {
    var a, b := IntToString(ts), IntToString(idx);
    NoUnderscoreInNumber(ts);
    NoUnderscoreInNumber(idx);
    assert StoredName(ts, idx, name) == a + ['_'] + (b + ['_'] + name);
    SplitMaxAppend(a, b + ['_'] + name, '_', 2);
    SplitMaxAppend(b, name, '_', 1);
  }

  /** `{ts}_new_{idx}_{name}` splits as `ts`, `new`, and `{idx}_{name}`. */
  lemma NewRowStoredNameParts(ts: int, idx: int, name: string)
    ensures SplitMax(NewRowStoredName(ts, idx, name), '_', 2) ==
      [IntToString(ts), "new", IntToString(idx) + "_" + name]
  {
    var a, b := IntToString(ts), IntToString(idx);
    NoUnderscoreInNumber(ts);
    var rest := b + "_" + name;
    assert NewRowStoredName(ts, idx, name) == a + ['_'] + ("new" + ['_'] + rest);
    SplitMaxAppend(a, "new" + ['_'] + rest, '_', 2);
    SplitMaxAppend("new", rest, '_', 1);
  }

  /** Downloading an upload stored as `{ts}_{idx}_{name}` offers it as `name`. */
  lemma OriginalNameRoundTrip(ts: int, idx: int, name: string)
    ensures OriginalNameAsWritten(StoredName(ts, idx, name)) == name
  {
    StoredNameParts(ts, idx, name);
  }

  /**
   * An upload stored as `{ts}_new_{idx}_{name}` is offered as `{idx}_{name}`
   * by the recovery as written, not as `name`.
   */
  lemma NewRowNameKeepsIndex(ts: int, idx: int, name: string)
    ensures OriginalNameAsWritten(NewRowStoredName(ts, idx, name)) == IntToString(idx) + "_" + name
    ensures OriginalNameAsWritten(NewRowStoredName(ts, idx, name)) != name
  {
    NewRowStoredNameParts(ts, idx, name);
  }

  lemma NumberIsNotNew(n: int)
    ensures IntToString(n) != "new"
  {
    assert IntToString(n)[0] != "new"[0];
  }

  /** The corrected recovery still gives back `name` from `{ts}_{idx}_{name}`. */
  lemma CorrectedRoundTrip(ts: int, idx: int, name: string)
    ensures OriginalName(StoredName(ts, idx, name)) == name
  {
    StoredNameParts(ts, idx, name);
    NumberIsNotNew(idx);
  }

  /** The corrected recovery gives back `name` from `{ts}_new_{idx}_{name}` too. */
  lemma CorrectedNewRowRoundTrip(ts: int, idx: int, name: string)
    ensures OriginalName(NewRowStoredName(ts, idx, name)) == name
  {
    NewRowStoredNameParts(ts, idx, name);
    var b := IntToString(idx);
    NoUnderscoreInNumber(idx);
    SplitMaxAppend(b, name, '_', 1);
  }
}
