# Inspection-task tracker: a Dafny model

The tracker keeps three tables:

- **tasks**: recurring inspection tasks of client companies.
- **checklist items**: a task's checklist, ordered by `order_num`.
- **checklist completions**: one record per (item, year, month), holding 0 (not done) or 1 (done).

A task is *due* in a month when it is active and either its schedule is `monthly` or the month appears in its comma-separated `schedule_detail`.

The dashboard, the monthly statistics and the result mail all read a period the same way. They create a default record of 0 for every item that has none yet, then count or list the items.

Users can do the following:

- toggle an item for a period;
- create a task with its checklist;
- edit a task and reconcile its checklist (delete, revise, append, renumber);
- delete a task together with its items and records;
- hide or show tasks in bulk.

Files uploaded when a task is created are stored as `{ts}_{idx}_{name}`. Files uploaded for an existing item are stored as `{ts}_{item_id}_{name}`. Files for the new rows of an edit are stored as `{ts}_new_{idx}_{name}`.

The download recovers the uploaded name from the first two forms only. For the third form it serves `{idx}_{name}` instead (see "## Findings").

The model has one module per concern:

| Module | File | What it holds |
|---|---|---|
| `Wrappers` | `wrappers.dfy` | `Option`. |
| `Text` | `text.dfy` | Python's `strip`, `split`, `split(sep, maxsplit)` and `int()` on text, and the rendering of integers. |
| `Schedule` | `schedule.dfy` | `parse_month_list` and the due-month test. |
| `Forms` | `forms.dfy` | The field walk of `parse_form_data`: row pairing of `item_file` uploads, `form.get(name, [default])[0]`, integer query parameters and the id list of the visibility form. |
| `Attachments` | `attachments.dfy` | Stored attachment names and original-name recovery. |
| `Model` | `model.dfy` | The records, the completion ledger, per-task counts, the due filter, deletion and visibility on values, and the `order_num` order of a checklist. |
| `Tracker` | `store.dfy` | The class `Store`, holding the tables as fields, with `ensure_completion`, the toggle, the two aggregators, the month listing, task deletion and the visibility update as methods. |
| `Stats` | `stats.dfy` | `build_month_stats`. |
| `Mail` | `mail.dfy` | `compose_email_handler`: the subject, the header and item lines, the body and the sorted, de-duplicated recipients. |
| `Editor` | `editor.dfy` | `edit_task_post_handler`: the partial update of the task's fields and the four-step checklist reconciliation. |
| `Creation` | `creation.dfy` | `new_task_post_handler`. |

Some modelling choices:

- **Identifiers.** The `AUTOINCREMENT` ids are counters in the store (`nextTaskId`, `nextItemId`).
- **The UNIQUE constraint.** The completion table is a map keyed by (item, year, month), so it holds by construction.
- **Result order.** Rows a query returns without `ORDER BY` come back in an order the model leaves open.
- **The clock.** The current year, the current month and the upload timestamp are parameters.

## Model

| member | source | states |
|---|---|---|
| Text.Strip | main.py:181 | the stripped text is no longer than the input and starts and ends with a character outside Python's `str.isspace()` set (which includes `\x1c`-`\x1f`, U+00A0 and U+3000) |
| Text.TrimRightPadded | main.py:181 | trailing whitespace of any kind after text ending in a non-space is all that right-stripping removes |
| Text.StripPadded | main.py:181 | `strip()` of stripped text followed by any whitespace, U+3000 included, is that text |
| Text.WideSpacesBlank | main.py:615-617 | a description of only U+3000, U+00A0 or U+001C is blank, so the row is skipped |
| Text.TrimLeftDrops | main.py:181 | left-stripping removes exactly a prefix made only of whitespace |
| Text.TrimRightDrops | main.py:181 | right-stripping removes exactly a suffix made only of whitespace |
| Text.StripIdempotent | main.py:615 | stripping twice gives the same text as stripping once |
| Text.BlankIffAllSpace | main.py:181 | `m.strip()` is empty exactly when every character of `m` is whitespace |
| Text.Split | main.py:181 | `split(',')` yields at least one part, no part contains the separator, and joining the parts gives back the input |
| Text.SplitJoin | main.py:181 | splitting the join of separator-free parts gives back those parts (the inverse direction) |
| Text.SplitMax | main.py:1139 | `split('_', 2)` yields one to three parts that join back to the input; only the last part may contain the separator, and it does so only when all the allowed splits were made |
| Text.ParseIntToString | main.py:1050 | `int(str(n))` reads back `n`, so the default year and month survive the round trip through text |
| Text.ParseInt | main.py:181 | `int()` accepts only text that is not blank (its value is pinned by ParseIntToString and ParseIntIgnoresSpace) |
| Text.ParseIntIgnoresSpace | main.py:181 | `int()` ignores whitespace around the number |
| Text.ParseIntOfBlank | main.py:573 | `int()` rejects empty or all-whitespace text |
| Schedule.ParseMonthList | main.py:172-184 | every month returned lies in 1..12, and a missing or empty string gives the empty list |
| Schedule.NonBlankMembers | main.py:181 | the tokens kept are exactly the non-blank ones |
| Schedule.ParseAllReadsEach | main.py:181 | the comprehension succeeds exactly when `int()` reads every kept token, and then yields each token's value in order |
| Schedule.InRangeMembers | main.py:182 | the range filter keeps exactly the values within 1..12 |
| Schedule.MonthsOfTokens | main.py:180-184 | the month list is the in-range values of the non-blank tokens, or empty when one of them does not parse |
| Schedule.MonthListMembership | main.py:180-182 | for a string whose tokens all parse, m is listed exactly when 1 <= m <= 12 and some non-blank token reads as m |
| Schedule.MalformedTokenEmptiesList | main.py:183-184 | a single non-blank token that `int()` rejects empties the whole list |
| Schedule.MonthListAppend | main.py:180-184 | joining two lists with a comma concatenates their months when both parse, and gives the empty list otherwise (input order is kept) |
| Schedule.BlankTokenSkipped | main.py:181 | a blank token before or after a list contributes nothing |
| Schedule.SingleMonth | main.py:180-182 | a single number is listed exactly when it lies in 1..12 |
| Schedule.PaddedMonth | main.py:180-182 | a single number followed by any whitespace is listed exactly when it lies in 1..12 |
| Schedule.FullWidthSpaceExample | main.py:180-182 | `"3\u3000"` lists March |
| Schedule.FourMonths | main.py:180-182 | any four in-range months, written with commas, read back in the order written |
| Schedule.QuarterlyExample | main.py:193-194 | `"1,4,7,10"` reads as `[1, 4, 7, 10]` |
| Schedule.LeadingJunkEmptiesList | main.py:183-184 | a malformed first token empties the list, whatever follows it |
| Schedule.DueMonthList | main.py:210-213 | a `monthly` task is due in all of 1..12; any other task is due in the parsed months of its detail; due months always lie in 1..12 |
| Schedule.MonthlyDueEveryMonth | main.py:210-211 | a `monthly` task is due in month m exactly when 1 <= m <= 12, whatever its detail |
| Schedule.ListedDue | main.py:212-214 | any other task is due in m exactly when m is in the parsed list of its detail |
| Forms.CollectFields | main.py:356-379 | after the field walk, each name maps to its text values in order, and each file name to its uploads in order; an `item_file` upload carries the index of the latest description, or -1 |
| Forms.FormLookup | main.py:364 | a name is in the text map exactly when some text field of that name was sent, and it maps to those values |
| Forms.UploadRowsInRange | main.py:370 | every `item_file` row index lies between -1 and the number of descriptions minus one |
| Forms.UploadsFollowDescription | main.py:361-370 | uploads that follow a description, up to the next one, are paired with that description's index; earlier pairings are kept |
| Forms.UploadsBeforeAnyDescription | main.py:356 | uploads sent before any description are paired with row -1 |
| Forms.ChecklistRowsKeepFiles | main.py:356-370 | for a form of checklist rows where unchosen file inputs carry no file, the row-to-file map holds exactly the chosen files, each under its own row |
| Forms.RowPairingKeepsRows | main.py:356-370 | the same pairing for any pair of description and file field names: one description per row, and each chosen file keyed by its row |
| Forms.RowFileMap | main.py:613 | a row index is a key of the file map exactly when some upload names that row |
| Forms.RowFileMapLastWins | main.py:613 | a row's value in the file map is the file name of the last upload for that row |
| Forms.First | main.py:574-582 | `form.get(name, [default])[0]`: the first value when the name was sent, the default otherwise |
| Forms.IntParamMissing | main.py:1050 | a missing year or month falls back to the current one |
| Forms.IntParamGiven | main.py:1049-1056 | a sent value is used when `int()` reads it, and the current value when it does not |
| Forms.ParseTaskIds | main.py:1097-1103 | the loop collects the ids `ParsedIds` describes, in order |
| Forms.ParsedIdsMembers | main.py:1099-1103 | an id is collected exactly when some submitted text reads as it; unreadable texts are skipped |
| Attachments.OriginalNameAsWritten | main.py:1139-1140 | the recovered name is a suffix of the stored name |
| Attachments.OriginalName | main.py:1139-1140 | the corrected recovery also returns a suffix of the stored name |
| Attachments.StoredNameParts | main.py:624 | `split('_', 2)` of a `{ts}_{idx}_{name}` name yields exactly the timestamp, the index and the name, even when the name contains `_` |
| Attachments.NewRowStoredNameParts | main.py:842 | `split('_', 2)` of a `{ts}_new_{idx}_{name}` name yields the timestamp, `new` and `{idx}_{name}` |
| Attachments.OriginalNameRoundTrip | main.py:1139-1140 | recovery gives back the uploaded name for the names built at creation and for existing items |
| Attachments.NewRowNameKeepsIndex | main.py:842 | for a new row's stored name, recovery as written returns `{idx}_{name}`, never the uploaded name |
| Attachments.CorrectedRoundTrip | main.py:624 | the corrected recovery still returns the uploaded name for `{ts}_{idx}_{name}` |
| Attachments.CorrectedNewRowRoundTrip | main.py:842 | the corrected recovery returns the uploaded name for `{ts}_new_{idx}_{name}` too |
| Model.Materialize | main.py:272-277 | creating default records adds exactly the missing keys |
| Model.MaterializeKeepsStatus | main.py:263-270 | a get-or-create never changes how a period reads, and keeps existing records |
| Model.MaterializeKeepsBinary | main.py:275 | default records keep every stored value 0 or 1 |
| Model.MaterializeTwice | main.py:255-278 | creating records for two key sets in turn equals creating them for the union |
| Model.ToggleFlips | main.py:1059-1067 | after a toggle the period reads `1 - old`, and every value stays 0 or 1 |
| Model.Toggled | main.py:1058-1069 | the toggle writes `1 - old` (0 for 1, 1 otherwise) to the period, creating it if absent, and no other record changes |
| Model.ToggleTwice | main.py:1059-1067 | toggling twice restores the ledger; a key that had no record keeps the default record of 0 |
| Model.ToggleLocal | main.py:1064-1067 | a toggle leaves every other record, and its presence, unchanged |
| Model.Forget | main.py:810 | dropping the records of some items keeps exactly the records of the other items, unchanged |
| Model.IncompleteBounded | main.py:281-300 | a task's incomplete items are among its items, so the count never exceeds the item count |
| Model.EmptyTaskNeitherOverdueNorDone | main.py:467 | a task without items is neither overdue nor done |
| Model.OverdueIffNotDone | main.py:520 | a task with items is overdue exactly when it is not done |
| Model.IncompleteIdsOfMaterialized | main.py:293-299 | the records created while counting do not change the incomplete set |
| Model.DoneAmongBounded | main.py:512-523 | the done tasks are among the counted tasks, so done <= total |
| Model.DoneAmongOfMaterialized | main.py:515-521 | records created while counting do not change which tasks are done |
| Model.AnyCompletedOfMaterialized | main.py:233-252 | default records never make a task count as executed |
| Model.AnyCompleted | main.py:233-252 | the `has_any_completion` query: some item of the task has a record with `completed = 1` in some period; its partners are Model.AnyCompletedOfMaterialized and Model.ToggleOnStarts |
| Model.ToggleOnStarts | main.py:233-252 | toggling an open item of a task makes the task count as executed |
| Model.StartedHasItems | main.py:240-246 | a task with a completed record has at least one item |
| Model.AnnotatedChecklistRows | main.py:303-321 | the annotated listing has one row per item of the task, in strictly increasing `order_num`, each with its record's status |
| Model.ListedIncomplete | main.py:281-321 | an item is counted as incomplete exactly when the listing shows it with status 0 |
| Model.OverdueIffListedUnfinished | main.py:462-467 | a task is overdue exactly when its listing shows an item with status 0 |
| Model.WithoutTask | main.py:885 | deleting a task's items keeps exactly the items of other tasks, each unchanged |
| Model.DeleteTaskEffects | main.py:871-891 | after a delete, the task has no items and no completed records, and every other task's checklist and listing are unchanged |
| Model.ForCompany | main.py:457-458 | the company filter keeps a subset of the tasks, all of that company, and is the identity without a filter |
| Model.WithActive | main.py:1109-1112 | the visibility update keeps the set of tasks, sets `active` to the flag for the chosen ids, keeps it for the others, and changes no other field |
| Model.HiddenLeaveEveryMonth | main.py:1111-1112 | hiding tasks removes exactly them from the due tasks of every month |
| Model.ShownRejoinMonths | main.py:1109-1110 | a shown task is due in exactly the months its schedule names |
| Model.WithActiveIdempotent | main.py:1105-1112 | repeating the same visibility update changes nothing |
| Model.OfCompanyMembers | main.py:936 | the company's tasks of the month are exactly the listed tasks of that company |
| Model.OfCompanyDistinct | main.py:936 | filtering a listing without repeats gives a listing without repeats |
| Model.HiddenNeverDue | main.py:205 | an inactive task is never due |
| Model.DueTasks | main.py:187-217 | the month's listing holds only existing, active tasks whose company exists (the join) |
| Model.MonthlyListedEveryMonth | main.py:209-211 | an active `monthly` task is listed in every month 1..12 |
| Model.OtherListedIffNamed | main.py:212-214 | an active task of any other schedule is listed exactly in the months its detail names |
| Model.NothingDueOutsideYear | main.py:209-215 | no task is listed for a month outside 1..12 |
| Model.SortByOrderSpec | main.py:311-315 | ordering lists each item exactly once, in non-decreasing `order_num` |
| Model.ChecklistSpec | main.py:311-315 | with distinct `order_num`s, a task's checklist lists exactly its items, in strictly increasing `order_num` |
| Model.ChecklistMembers | main.py:311-315 | the checklist mentions exactly the task's items |
| Model.OrderedUnique | main.py:311-315 | two strictly ordered listings of the same items are equal |
| Model.ChecklistUnique | main.py:311-315 | any strictly ordered listing of the task's items is its checklist |
| Tracker.Store.constructor | main.py:84-169 | an empty tracker: no tasks, items or records, and the ids start at 1 |
| Tracker.Store.EnsureCompletion | main.py:255-278 | an existing record's value is returned and the table is unchanged; a missing key gets exactly one record of 0, and 0 is returned |
| Tracker.Store.Toggle | main.py:1059-1067 | the record ends at `1 - old`, where `old` is what the get-or-create returned; the rest of the ledger is unchanged |
| Tracker.Store.IncompleteCount | main.py:281-300 | returns the number of the task's items whose period reads 0; afterwards every item has a record for the period, and no other record changed |
| Tracker.Store.ItemsByOrder | main.py:311-315 | returns the task's items in `order_num` order |
| Tracker.Store.ItemsWithCompletion | main.py:303-321 | returns the annotated checklist of the period, and creates the missing records of the task's items |
| Tracker.Store.TaskView | main.py:461-469 | the incomplete count, the overdue flag (count > 0) and the annotated items of one dashboard entry |
| Tracker.Store.TasksForMonth | main.py:187-217 | lists each due task exactly once, and nothing else |
| Tracker.Store.DeleteTask | main.py:871-891 | removes the task, exactly its items, and exactly the records of those items |
| Tracker.Store.SetVisibility | main.py:1105-1112 | sets `active` of the named existing tasks to whether the action is `show`; nothing else changes |
| Tracker.Store.UpdateVisibility | main.py:1097-1112 | applies the readable ids of the form with its action, which defaults to `hide` |
| Tracker.Store.ToggleItem | main.py:1046-1069 | toggles the period named by the form, defaulting to the current year and month |
| Stats.MonthRowBounded | main.py:512-523 | each month's pair satisfies 0 <= done <= total |
| Stats.FilteredSpec | main.py:506-510 | the month listing after the company filter has no repeats and holds exactly the counted tasks |
| Stats.MonthStat | main.py:505-523 | a month's pair is (done tasks, counted tasks); records are created for the counted tasks' items |
| Stats.CountDone | main.py:515-521 | counts the listed tasks that have items and no incomplete item |
| Stats.BuildMonthStats | main.py:497-525 | there is exactly one entry per month 1..12, each equal to its month's pair and with 0 <= done <= total |
| Mail.SubjectReadsBack | main.py:938 | after the company name, the subject's words read back as the year, the month and the fixed title |
| Mail.HeaderReadsBack | main.py:946-948 | the header shows the detail label between the dash and the parenthesis, and names the in-house kind exactly for in-house tasks |
| Mail.ItemLineReadsBack | main.py:951-954 | an item line carries the done mark exactly when the item is done, followed by its description |
| Mail.CrossedAreIncomplete | main.py:949-955 | the items a block marks as not done are exactly the task's incomplete items; a block has one line per item plus a header and an empty line |
| Mail.ContactEmails | main.py:942-944 | collects exactly the non-empty contact addresses of the listed tasks |
| Mail.Insert | main.py:960 | inserting into an ascending list keeps it ascending and adds exactly the new address |
| Mail.Recipients | main.py:960 | the recipients are ascending without repeats, and are exactly the non-empty addresses |
| Mail.RecipientsAreSortedSet | main.py:960 | any ascending, repeat-free list of those addresses is the recipient list (`sorted(set(...))` is unique) |
| Mail.AscendingUnique | main.py:960 | two ascending lists with the same members are equal |
| Mail.CompanyParam | main.py:907-913 | the company is read by `int()` when given, and is missing otherwise |
| Mail.ComposeEmail | main.py:894-977 | there is no mail exactly when the company id is unreadable or unknown; otherwise the subject, body and recipients are built from the company's due tasks, each listed once |
| Mail.CollectLines | main.py:942-955 | the loop yields the body lines and contact addresses of the listed tasks, and creates their period records |
| Mail.AppendTask | main.py:942-955 | one loop turn appends one task's block and its address, if it has one |
| Editor.Given | main.py:703-710 | a field counts as given exactly when it was sent, and then holds its first value |
| Editor.EmptyFormKeepsTask | main.py:722-732 | a form that sends no field leaves the task unchanged |
| Editor.EditedTaskIdempotent | main.py:722-732 | submitting the same form twice has the effect of submitting it once, and no contact field ends up as empty text |
| Editor.ClassifiedMembers | main.py:778-783 | the ids to delete are exactly the listed items that are marked; the others are kept |
| Editor.KeptOrdered | main.py:778-805 | the items kept stay in `order_num` order |
| Editor.RevisedItem | main.py:785-805 | a survivor keeps its task and order, keeps its description unless one was sent, keeps its attachment unless a file was uploaded, and a new attachment recovers to the uploaded name |
| Editor.NewRowsSound | main.py:834-851 | every appended row carries a non-empty, stripped description that some non-blank submitted row strips to |
| Editor.NewRowsComplete | main.py:834-851 | every non-blank submitted description is appended |
| Creation.NewRowsByIndex | main.py:834-851 | the appended rows are the non-blank rows in submission order, row j carrying the stripped description and the file of the j-th non-blank row index |
| Editor.PositionalFiles | main.py:839-841 | the handler as written pairs the k-th uploaded new file with row k |
| Editor.PositionalFilesShiftRows | main.py:839-842 | with rows ("a", no file) and ("b", "b.pdf"), the file lands on row 0 instead of row 1 |
| Editor.NewRowFilesKeepRows | main.py:356-370 | pairing new files the way `item_file` is paired puts every chosen file on its own row |
| Editor.UploadsOfFullRows | main.py:839-841 | when every new row carries a file, the uploads are one per row, in row order |
| Editor.PairingsAgreeOnFullRows | main.py:839-841 | when every new row carries a file, the positional `new_files[idx]` pairing equals the corrected pairing |
| Editor.Classify | main.py:778-805 | builds the marked ids and, for the kept items in order, their updates |
| Editor.DeleteItems | main.py:807-812 | removes exactly the marked items and all their records |
| Editor.UpdateItems | main.py:814-825 | applies each update (a new attachment only when one was stored); other items, ids, tasks and orders are unchanged |
| Editor.ApplyUpdates | main.py:814-825 | the update loop leaves ids, tasks and orders as they were, applies every queued update to its item, and leaves the other items unchanged |
| Editor.MaxOrderNum | main.py:831-833 | gives the largest `order_num` of the task's items, or -1 without items |
| Editor.InsertedItems | main.py:834-851 | row j becomes a new item with the next id, of the task, with order `first + j`; no other id is used |
| Editor.InsertedOrders | main.py:831-851 | appending after the largest order keeps `order_num`s distinct within every task |
| Editor.InsertRows | main.py:834-851 | the loop inserts exactly the appended rows, with consecutive ids and orders |
| Editor.AddItems | main.py:827-851 | the store gains exactly the new rows, and the id counter advances by their number |
| Editor.Renumber | main.py:853-863 | the checklist keeps its order, orders become 0..n-1, and nothing else changes |
| Editor.Renumbered | main.py:853-863 | the renumbering loop gives the item at position k of the listing order k, keeps every id, and leaves every other item unchanged |
| Editor.RenumberedOrders | main.py:853-863 | after renumbering, orders stay distinct and the listing stays strictly ordered |
| Editor.SurvivorsListed | main.py:807-825 | after the deletes and updates, the task's items are exactly the kept ones, still in order |
| Editor.AppendedChecklist | main.py:827-863 | after the insert, the checklist is the kept items followed by the new rows |
| Editor.ReviseItems | main.py:755-825 | marked items and their records are gone, the survivors are revised, and the checklist is the kept items in their old order |
| Editor.AppendRows | main.py:827-863 | new rows follow the old checklist in submission order, and the whole checklist is renumbered 0..n-1 |
| Editor.EditTask | main.py:686-864 | on the submitted fields and the form collected from them; new-row files follow the corrected pairing `NewRowFiles`. Unknown task: nothing changes. Otherwise: the fields are partially updated; the marked items and all their records go; the other records stay unchanged; the checklist becomes the kept items, revised, followed by the non-blank new rows, numbered 0..n-1; other tasks' items are unchanged |
| Editor.EditWithFiles | main.py:686-864 | the whole edit for a given new-row file map: unknown task changes nothing; otherwise the partial field update, the deletion of the marked items with their records, the revisions, the appended rows and the renumbering, as `EditedChecklist` states |
| Creation.Stripped | main.py:578-582 | a contact field is absent or non-empty and stripped |
| Creation.NewTaskRecord | main.py:573-582 | no task exactly when `int()` rejects the company id; otherwise a task with the form's values or their defaults |
| Creation.NewTaskDefaults | main.py:573-582 | an empty form creates an active company-0 `INHOUSE`, `EMAIL`, `monthly` task without optional fields |
| Creation.NewTaskNormalized | main.py:577-582 | a created task is active, and no optional field holds empty text |
| Creation.EditWithCreationForm | main.py:722-732 | submitting the creation form as an edit leaves the created task as it is |
| Creation.NonBlankSpec | main.py:614-617 | the indices kept are strictly increasing, and are exactly those of non-blank descriptions |
| Creation.CreatedRowsSpec | main.py:614-637 | the created items have strictly increasing `order_num`s, and each non-blank row index is the order of exactly one item |
| Creation.CreatedDescriptions | main.py:614-637 | each created item belongs to the task and has a non-empty, stripped description; its order is the row index it came from |
| Creation.CreatedAttachments | main.py:618-630 | an item has an attachment exactly when a named file was uploaded for its row, and the attachment recovers to that name |
| Creation.NumberedItems | main.py:631-637 | the k-th created item gets the k-th fresh id, and no other id is used |
| Creation.InsertCreated | main.py:614-637 | the loop adds exactly the created items, under consecutive fresh ids |
| Creation.NumberedDistinct | main.py:614-637 | adding the created items keeps `order_num`s distinct within every task |
| Creation.NumberedChecklist | main.py:614-637 | the new task's checklist is its created items in id order |
| Creation.AddTaskRow | main.py:584-608 | the task row is stored under the next task id |
| Creation.AddCreatedItems | main.py:609-637 | the created items are stored under the next item ids |
| Creation.NewTask | main.py:566-641 | an unreadable company id stores nothing. Otherwise the task takes the next id, and its items are the non-blank rows under fresh ids, whose checklist lists them in row order |

## Left out

- **HTTP and rendering.** WSGI routing, the response tuples, redirects and Jinja rendering are transport and UI. The handlers become methods over the store that take the parsed form as a map.
- **SQLite.** Connections, cursors, transactions and `init_db`'s schema migration are replaced by the in-memory `Store`.
- **Attachment files.** Writing, reading and `unlink`ing files is file-system I/O. Only the stored names are modelled, and a failed `unlink` is ignored as in the source.
- **Byte decoding.** `cgi.FieldStorage` parsing and UTF-8 decoding are not modelled. `parse_form_data` is modelled from the sequence of fields onward. An empty file input is a field without a file name.
- **The clock.** `datetime.now()` becomes parameters: the current year and month, and one timestamp `ts` per request. The source reads the clock once per stored file, so names stored in one request may differ in their timestamp. The model does not capture that.
- **`int()`.** Modelled as optional surrounding whitespace (the `str.isspace()` set, as for `strip()`), an optional sign and ASCII digits. Underscore separators and non-ASCII digits are not modelled.
- Editor.EditTask: new rows get their files by the corrected pairing `NewRowFiles(fields)`, not by the positional `new_files[idx]` of main.py:829 and 839-841 (`PositionalFiles(Uploads(fields, NewItemFile))`). The two differ exactly as the main.py:839-841 finding shows, and agree whenever every new row carries a file (`Editor.PairingsAgreeOnFullRows`).
- **Existing-item files.** The parsing of `existing_item_file_{id}` field names (main.py:766-776) is not modelled. `Editor.EditTask` receives the resulting id-to-file-name map as `existingFiles`.
- **`urllib.parse.quote` in the mailto link.** This is library encoding. The mail is modelled up to the subject, body text and recipient list.
- **Concurrency.** The race between two concurrent get-or-create inserts is not modelled.
- **The legacy per-item `completed` flag.** `count_incomplete_items` and `complete_item_handler` are not modelled, because no period view reads it.
- **Company creation, `get_companies` and `get_all_tasks`.** These are listing and insertion handlers outside the tracker's period logic. The companies are a field of the store that none of the modelled operations changes.
- **Item creation.** An unreadable `company_id` makes `int()` raise before anything is stored. `Creation.NewTask` returns `None` and leaves the store unchanged.
- **Schedule.ParseMonthList: the whole list, not the token.** The code returns `[]` for the whole list as soon as one non-blank token fails to parse. A description that only drops the bad token does not match the code. The model follows the code (`Schedule.MalformedTokenEmptiesList`).
- **Tracker.Store.TasksForMonth, Mail.ComposeEmail: listing order.** The order is left open, because the listing query has no `ORDER BY`. The contracts fix the set and the absence of repeats, not the order.

## Findings

| source | as written | input that shows it | evidently intended | confidence | as-written member | corrected member |
|---|---|---|---|---|---|---|
| main.py:1139-1140 | the original name is the third part of `split('_', 2)`, but new rows of an edit are stored as `{ts}_new_{idx}_{name}` (main.py:842) | ts 5, idx 0, name `a.pdf`: stored `5_new_0_a.pdf`, served as `0_a.pdf` | every stored name recovers the uploaded name | not executed | Attachments.NewRowNameKeepsIndex | Attachments.CorrectedNewRowRoundTrip |
| main.py:839-841 | the k-th uploaded `new_item_file` goes to new row k, but rows without a chosen file send no upload | rows ("a", no file) and ("b", "b.pdf"): `b.pdf` is attached to "a" | each file stays with its own row, as `item_file` pairing does (main.py:356-370) | not executed | Editor.PositionalFilesShiftRows | Editor.NewRowFilesKeepRows |
