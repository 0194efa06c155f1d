/**
 * `compose_email_handler`: the monthly result mail of one company. The
 * subject names the company and the period; the body holds, for every task
 * of the company listed in the month, a header line, one line per checklist
 * item marked done or not done, and a blank line; the recipients are the
 * tasks' contact addresses, sorted and without duplicates.
 */
module Mail {
  import opened Wrappers
  import opened Text
  import opened Forms
  import opened Model
  import opened Tracker
  import opened Stats

  const InHouse: string := "INHOUSE"
  const InHouseLabel: string := "사내점검"
  const VisitLabel: string := "방문점검"
  const DoneMark: char := '✔'
  const OpenMark: char := '✘'

  /** Python's truth value of a nullable text column: present and non-empty. */
  predicate Truthy(o: Option<string>) {
    o.Some? && o.value != ""
  }

  // ---------------------------------------------------------------------------
  // Subject, headers and item lines

  function Subject(name: string, year: int, month: int): string {
    name + " " + IntToString(year) + "년 " + IntToString(month) + "월 정기점검 결과"
  }

  /** The first line of the body, followed by an empty line. */
  function Intro(name: string, year: int, month: int): string {
    name + " " + IntToString(year) + "년 " + IntToString(month) + "월 정기점검 체크리스트 결과입니다.\n\n"
  }

  /**
   * The subject reads back: after the company name and a space come four
   * words, the first two of which are the year and the month with their unit.
   */
  lemma SubjectReadsBack(name: string, year: int, month: int)
    ensures var s := Subject(name, year, month);
      |s| > |name| && s[..|name| + 1] == name + " " &&
      var words := Split(s[|name| + 1..], ' ');
      |words| == 4 && |words[0]| >= 1 && |words[1]| >= 1 &&
      ParseInt(words[0][..|words[0]| - 1]) == Some(year) &&
      ParseInt(words[1][..|words[1]| - 1]) == Some(month) &&
      words[2] == "정기점검" && words[3] == "결과"
  {
    var y, m := IntToString(year), IntToString(month);
    var s := Subject(name, year, month);
    var tail := y + "년 " + m + "월 정기점검 결과";
    assert s == name + " " + tail;
    assert s[|name| + 1..] == tail;
    assert ' ' !in y by {
      assert forall k :: 0 <= k < |y| ==> IsDigit(y[k]) || y[k] == '-';
    }
    assert ' ' !in m by {
      assert forall k :: 0 <= k < |m| ==> IsDigit(m[k]) || m[k] == '-';
    }
    var words := SubjectWords(y, m);
    assert words[0][..|words[0]| - 1] == y;
    assert words[1][..|words[1]| - 1] == m;
    ParseIntToString(year);
    ParseIntToString(month);
  }

  /** The words after the company name in a subject, for rendered year and month texts without spaces. */
  lemma SubjectWords(y: string, m: string) returns (words: seq<string>)
    requires ' ' !in y && ' ' !in m
    ensures words == Split(y + "년 " + m + "월 정기점검 결과", ' ')
    ensures words == [y + "년", m + "월", "정기점검", "결과"]
  {
    var w0, w1, w2, w3 := y + "년", m + "월", "정기점검", "결과";
    assert ' ' !in w2 && ' ' !in w3;
    assert w0 + [' '] + (w1 + [' '] + (w2 + [' '] + w3)) == y + "년 " + m + "월 정기점검 결과";
    FourWords(w0, w1, w2, w3);
    words := Split(y + "년 " + m + "월 정기점검 결과", ' ');
  }

  /** Four words without spaces, joined by single spaces, split back into those words. */
  lemma FourWords(w0: string, w1: string, w2: string, w3: string)
    requires ' ' !in w0 && ' ' !in w1 && ' ' !in w2 && ' ' !in w3
    ensures Split(w0 + [' '] + (w1 + [' '] + (w2 + [' '] + w3)), ' ') == [w0, w1, w2, w3]
  {
    SplitAppend(w2, w3, ' ');
    SplitWithoutSep(w2, ' ');
    SplitWithoutSep(w3, ' ');
    SplitAppend(w1, w2 + [' '] + w3, ' ');
    SplitWithoutSep(w1, ' ');
    SplitAppend(w0, w1 + [' '] + (w2 + [' '] + w3), ' ');
    SplitWithoutSep(w0, ' ');
  }

  /** What a task's header names: its detail name, else its company's sub-name, else nothing. */
  function DetailLabel(task: Task, company: Company): string {
    if Truthy(task.detailName) then task.detailName.value
    else if Truthy(company.subName) then company.subName.value
    else ""
  }

  function KindLabel(taskType: string): string {
    if taskType == InHouse then InHouseLabel else VisitLabel
  }

  /** The header line of a task's block. */
  function Header(task: Task, company: Company): string {
    "- " + DetailLabel(task, company) + " (" + KindLabel(task.taskType) + ")"
  }

  /** A header reads back: the detail label sits between the dash and the parenthesis, which names the in-house kind exactly for in-house tasks. */
  lemma HeaderReadsBack(task: Task, company: Company)
    ensures var h := Header(task, company);
      |h| == |DetailLabel(task, company)| + 9 &&
      h[2..|h| - 7] == DetailLabel(task, company) &&
      (h[|h| - 5..|h| - 1] == InHouseLabel <==> task.taskType == InHouse)
  {
    var h := Header(task, company);
    var d := DetailLabel(task, company);
    assert h[2..|h| - 7] == d;
    assert h[|h| - 5..|h| - 1] == KindLabel(task.taskType);
    assert InHouseLabel != VisitLabel by {
      assert InHouseLabel[0] != VisitLabel[0];
    }
  }

  function Mark(completed: int): char {
    if completed != 0 then DoneMark else OpenMark
  }

  /** The line of one checklist item: four spaces, the mark, a space and the description. */
  function ItemLine(row: Annotated): string {
    "    " + [Mark(row.completed)] + " " + row.item.description
  }

  /** An item line reads back: its mark is the done mark exactly when the item is done, and the description follows. */
  lemma ItemLineReadsBack(row: Annotated)
    ensures var l := ItemLine(row);
      |l| >= 6 && (l[4] == DoneMark <==> row.completed != 0) && (l[4] == OpenMark <==> row.completed == 0) &&
      l[6..] == row.item.description
  {
    var l := ItemLine(row);
    assert l[4] == Mark(row.completed);
    assert l[6..] == row.item.description;
  }

  /** The lines of listed items, in listing order. */
  function ItemLines(rows: seq<Annotated>): (r: seq<string>)
    ensures |r| == |rows|
    ensures forall k :: 0 <= k < |rows| ==> r[k] == ItemLine(rows[k])
  {
    if rows == [] then []
    else
      var pre := rows[..|rows| - 1];
      assert forall k :: 0 <= k < |pre| ==> pre[k] == rows[k];
      ItemLines(pre) + [ItemLine(rows[|rows| - 1])]
  }

  /** A task's block of the body: its header, its item lines and an empty line. */
  function TaskLines(task: Task, company: Company, rows: seq<Annotated>): seq<string> {
    [Header(task, company)] + ItemLines(rows) + [""]
  }

  /**
   * The items a task's block marks as not done are exactly the task's
   * incomplete items for the period, and the block has one line per item
   * besides its header and its closing empty line.
   */
  lemma CrossedAreIncomplete(items: map<int, Item>, c: map<Key, int>, t: int, year: int, month: int)
    requires DistinctOrders(items)
    ensures var rows := AnnotatedChecklist(items, c, t, year, month);
      (set k | 0 <= k < |rows| && ItemLines(rows)[k][4] == OpenMark :: rows[k].id) == IncompleteIds(items, c, t, year, month)
    ensures forall task, company :: |TaskLines(task, company, AnnotatedChecklist(items, c, t, year, month))| == |TaskItemIds(items, t)| + 2
  {
    var rows := AnnotatedChecklist(items, c, t, year, month);
    AnnotatedChecklistSize(items, c, t, year, month);
    forall k | 0 <= k < |rows| ensures ItemLines(rows)[k][4] == OpenMark <==> rows[k].completed == 0 {
      ItemLineReadsBack(rows[k]);
    }
    forall i ensures i in IncompleteIds(items, c, t, year, month) <==>
      exists k :: 0 <= k < |rows| && rows[k].id == i && rows[k].completed == 0
    {
      ListedIncomplete(items, c, t, year, month, i);
    }
  }

  // ---------------------------------------------------------------------------
  // The body

  /** Every listed task exists and its company exists: what the join of the listing query ensures. */
  predicate Listable(tasks: map<int, Task>, companies: map<int, Company>, ts: seq<int>) {
    forall k :: 0 <= k < |ts| ==> ts[k] in tasks && tasks[ts[k]].companyId in companies
  }

  /** The body lines of the listed tasks, block after block, on the ledger `c`. */
  ghost function BodyLines(items: map<int, Item>, tasks: map<int, Task>, companies: map<int, Company>, c: map<Key, int>,
                           ts: seq<int>, year: int, month: int): seq<string>
    requires Listable(tasks, companies, ts)
  {
    if ts == [] then []
    else
      var t := ts[|ts| - 1];
      BodyLines(items, tasks, companies, c, ts[..|ts| - 1], year, month) +
      TaskLines(tasks[t], companies[tasks[t].companyId], AnnotatedChecklist(items, c, t, year, month))
  }

  /** The contact addresses of the listed tasks, in listing order, where one is given. */
  function ContactEmails(tasks: map<int, Task>, ts: seq<int>): (r: seq<string>)
    requires forall k :: 0 <= k < |ts| ==> ts[k] in tasks
    ensures forall x :: x in r <==> exists k :: 0 <= k < |ts| && tasks[ts[k]].contactEmail == Some(x) && x != ""
  {
    if ts == [] then []
    else
      var pre, t := ts[..|ts| - 1], ts[|ts| - 1];
      var r := ContactEmails(tasks, pre);
      assert forall k :: 0 <= k < |pre| ==> pre[k] == ts[k];
      if Truthy(tasks[t].contactEmail) then r + [tasks[t].contactEmail.value] else r
  }

  // ---------------------------------------------------------------------------
  // Recipients: `sorted(set(...))`

  /** Python's `<` on text: by code point, a proper prefix first. */
  predicate Below(a: string, b: string)
    decreases |a|
  {
    if a == [] then b != []
    else b != [] && (a[0] < b[0] || (a[0] == b[0] && Below(a[1..], b[1..])))
  }

  lemma {:induction false} BelowAsymmetric(a: string, b: string)
    ensures !(Below(a, b) && Below(b, a))
    decreases |a|
  {
    if a != [] && b != [] && a[0] == b[0] {
      BelowAsymmetric(a[1..], b[1..]);
    }
  }

  lemma {:induction false} BelowTransitive(a: string, b: string, c: string)
    requires Below(a, b) && Below(b, c)
    ensures Below(a, c)
    decreases |a|
  {
    if a != [] && a[0] == b[0] && b[0] == c[0] {
      BelowTransitive(a[1..], b[1..], c[1..]);
    }
  }

  lemma {:induction false} BelowTotal(a: string, b: string)
    requires a != b
    ensures Below(a, b) || Below(b, a)
    decreases |a|
  {
    if a != [] && b != [] && a[0] == b[0] {
      assert a == [a[0]] + a[1..] && b == [b[0]] + b[1..];
      BelowTotal(a[1..], b[1..]);
    }
  }

  /** Strictly ascending, hence without duplicates. */
  predicate Ascending(r: seq<string>) {
    forall j, k :: 0 <= j < k < |r| ==> Below(r[j], r[k])
  }

  lemma AscendingCons(h: string, r: seq<string>)
    requires Ascending(r) && forall y :: y in r ==> Below(h, y)
    ensures Ascending([h] + r)
  {
    var s := [h] + r;
    forall j, k | 0 <= j < k < |s| ensures Below(s[j], s[k]) {
      if j > 0 {
        assert s[j] == r[j - 1] && s[k] == r[k - 1];
      } else {
        assert s[k] == r[k - 1];
      }
    }
  }

  /** Adding `x` to an ascending list of addresses, once. */
  function Insert(r: seq<string>, x: string): (r': seq<string>)
    requires Ascending(r)
    ensures Ascending(r')
    ensures forall y :: y in r' <==> y in r || y == x
  {
    if r == [] then [x]
    else if x == r[0] then r
    else if Below(x, r[0]) then
      BelowAllAfterHead(x, r);
      AscendingCons(x, r);
      [x] + r
    else
      BelowTotal(x, r[0]);
      var rest := Insert(r[1..], x);
      assert forall y :: y in rest ==> Below(r[0], y) by {
        forall y | y in rest ensures Below(r[0], y) {
          if y != x {
            var k :| 0 <= k < |r[1..]| && r[1..][k] == y;
            assert r[k + 1] == y;
          }
        }
      }
      AscendingCons(r[0], rest);
      assert r == [r[0]] + r[1..];
      [r[0]] + rest
  }

  lemma BelowAllAfterHead(x: string, r: seq<string>)
    requires Ascending(r) && r != [] && Below(x, r[0])
    ensures forall y :: y in r ==> Below(x, y)
  {
    forall y | y in r ensures Below(x, y) {
      var k :| 0 <= k < |r| && r[k] == y;
      if k > 0 {
        BelowTransitive(x, r[0], y);
      }
    }
  }

  /**
   * `sorted(set([r for r in recipients if r]))`: the non-empty addresses,
   * ascending, each once.
   */
  function Recipients(emails: seq<string>): (r: seq<string>)
    ensures Ascending(r)
    ensures forall y :: y in r <==> y in emails && y != ""
  {
    if emails == [] then []
    else
      var pre, x := emails[..|emails| - 1], emails[|emails| - 1];
      assert emails == pre + [x];
      if x == "" then Recipients(pre) else Insert(Recipients(pre), x)
  }

  /** In an ascending list every other member comes after the first. */
  lemma AscendingHeadLeast(r: seq<string>, y: string)
    requires Ascending(r) && y in r
    ensures y == r[0] || Below(r[0], y)
  {
  }

  /**
   * An ascending list is fixed by its members, so the recipients are the
   * one ascending list of the non-empty addresses: any other list with the
   * same members in ascending order is the same list.
   */
  lemma {:induction false} AscendingUnique(a: seq<string>, b: seq<string>)
    requires Ascending(a) && Ascending(b)
    requires forall y :: y in a <==> y in b
    ensures a == b
    decreases |a|
  {
    if a != [] {
      assert a[0] in b;
      var y, z := a[0], b[0];
      assert z in a;
      AscendingHeadLeast(b, y);
      AscendingHeadLeast(a, z);
      BelowAsymmetric(y, z);
      assert y == z;
      forall x ensures x in a[1..] <==> x in b[1..] {
        if x in a[1..] {
          var k :| 0 <= k < |a[1..]| && a[1..][k] == x;
          assert Below(a[0], a[k + 1]);
          BelowAsymmetric(x, x);
          assert x in b && x != b[0];
          assert b == [b[0]] + b[1..];
        }
        if x in b[1..] {
          var k :| 0 <= k < |b[1..]| && b[1..][k] == x;
          assert Below(b[0], b[k + 1]);
          BelowAsymmetric(x, x);
          assert x in a && x != a[0];
          assert a == [a[0]] + a[1..];
        }
      }
      AscendingUnique(a[1..], b[1..]);
      assert a == [a[0]] + a[1..] && b == [b[0]] + b[1..];
    } else if b != [] {
      HeadIsMember(b);
      assert false;
    }
  }

  lemma HeadIsMember(b: seq<string>)
    requires b != []
    ensures b[0] in b
  {
  }

  lemma RecipientsAreSortedSet(emails: seq<string>, r: seq<string>)
    requires Ascending(r) && forall y :: y in r <==> y in emails && y != ""
    ensures r == Recipients(emails)
  {
    AscendingUnique(r, Recipients(emails));
  }

  // ---------------------------------------------------------------------------
  // The handler

  datatype Email = Email(companyName: string, year: int, month: int, subject: string, body: string, recipients: seq<string>)

  /** The `company` query parameter as `int()` reads it; missing or unreadable gives None. */
  function CompanyParam(query: map<string, seq<string>>): (r: Option<int>)
    ensures Lookup(query, "company") == [] ==> r.None?
    ensures Lookup(query, "company") != [] ==> r == ParseInt(query["company"][0])
  {
    var values := Lookup(query, "company");
    if values == [] then None else ParseInt(values[0])
  }

  /**
   * `compose_email_handler`: nothing when the company id is missing,
   * unreadable or unknown; otherwise the mail of the company's tasks listed
   * in the month, in the order the listing gave them (`order`). Reading each
   * task's checklist creates its missing records for the period.
   */
  method ComposeEmail(s: Store, query: map<string, seq<string>>, nowYear: int, nowMonth: int)
      returns (email: Option<Email>, ghost order: seq<int>)
    requires s.Valid()
    modifies s`completions
    ensures s.Valid()
    ensures email.None? <==> CompanyParam(query).None? || CompanyParam(query).value !in s.companies
    ensures email.None? ==> s.completions == old(s.completions)
    ensures email.Some? ==>
      var company := CompanyParam(query).value;
      var name := s.companies[company].name;
      var year := IntParam(Lookup(query, "year"), nowYear);
      var month := IntParam(Lookup(query, "month"), nowMonth);
      Distinct(order) && Members(order) == Counted(s.tasks, s.companies, month, Some(company)) &&
      Listable(s.tasks, s.companies, order) &&
      email.value == Email(name, year, month, Subject(name, year, month),
        Intro(name, year, month) + Join(BodyLines(s.items, s.tasks, s.companies, old(s.completions), order, year, month), '\n'),
        Recipients(ContactEmails(s.tasks, order))) &&
      s.completions == Materialize(old(s.completions), ItemPeriodKeys(s.items, Members(order), year, month))
  {
    var company := CompanyParam(query);
    var year := IntParam(Lookup(query, "year"), nowYear);
    var month := IntParam(Lookup(query, "month"), nowMonth);
    if company.None? || company.value !in s.companies {
      email, order := None, [];
      return;
    }
    var name := s.companies[company.value].name;
    var listed := s.TasksForMonth(month);
    var ts := OfCompany(s.tasks, listed, company.value);
    FilteredSpec(s.tasks, s.companies, listed, month, Some(company.value));
    assert Members(ts) == Counted(s.tasks, s.companies, month, Some(company.value));
    forall k | 0 <= k < |ts| ensures ts[k] in s.tasks && s.tasks[ts[k]].companyId in s.companies {
      var t := ts[k];
      assert t in Members(ts);
    }
    var lines, emails := CollectLines(s, ts, year, month);
    order := ts;
    email := Some(Email(name, year, month, Subject(name, year, month), Intro(name, year, month) + Join(lines, '\n'), Recipients(emails)));
  }

  /** The loop over the listed tasks: collect addresses and body lines. */
  method CollectLines(s: Store, ts: seq<int>, year: int, month: int) returns (lines: seq<string>, emails: seq<string>)
    requires s.Valid() && Distinct(ts) && Listable(s.tasks, s.companies, ts)
    modifies s`completions
    ensures s.Valid()
    ensures lines == BodyLines(s.items, s.tasks, s.companies, old(s.completions), ts, year, month)
    ensures emails == ContactEmails(s.tasks, ts)
    ensures s.completions == Materialize(old(s.completions), ItemPeriodKeys(s.items, Members(ts), year, month))
  {
    lines, emails := [], [];
    assert s.completions == Materialize(old(s.completions), ItemPeriodKeys(s.items, Members(ts[..0]), year, month));
    for j := 0 to |ts|
      invariant s.Valid()
      invariant lines == BodyLines(s.items, s.tasks, s.companies, old(s.completions), ts[..j], year, month)
      invariant emails == ContactEmails(s.tasks, ts[..j])
      invariant s.completions == Materialize(old(s.completions), ItemPeriodKeys(s.items, Members(ts[..j]), year, month))
    {
      var t := ts[j];
      var task := s.tasks[t];
      assert ts[..j + 1][..j] == ts[..j] && ts[..j + 1][j] == t;
      DistinctNotBefore(ts, j);
      MembersSnoc(ts, j);
      ListingStep(s.items, old(s.completions), Members(ts[..j]), t, year, month);
      lines, emails := AppendTask(s, t, lines, emails, year, month);
    }
    assert ts[..|ts|] == ts;
  }

  /** One task of the loop: its address when given, its header, its item lines and an empty line. */
  method AppendTask(s: Store, t: int, lines: seq<string>, emails: seq<string>, year: int, month: int)
      returns (lines': seq<string>, emails': seq<string>)
    requires s.Valid() && t in s.tasks && s.tasks[t].companyId in s.companies
    modifies s`completions
    ensures s.Valid()
    ensures lines' == lines + TaskLines(s.tasks[t], s.companies[s.tasks[t].companyId], AnnotatedChecklist(s.items, old(s.completions), t, year, month))
    ensures emails' == emails + (if Truthy(s.tasks[t].contactEmail) then [s.tasks[t].contactEmail.value] else [])
    ensures s.completions == Materialize(old(s.completions), PeriodKeys(TaskItemIds(s.items, t), year, month))
  {
    var task := s.tasks[t];
    emails' := emails;
    if Truthy(task.contactEmail) {
      emails' := emails' + [task.contactEmail.value];
    }
    lines' := lines + [Header(task, s.companies[task.companyId])];
    var rows := s.ItemsWithCompletion(t, year, month);
    lines' := AppendItemLines(lines', rows);
    lines' := lines' + [""];
  }

  /** The inner loop: one line per listed item. */
  method AppendItemLines(lines: seq<string>, rows: seq<Annotated>) returns (r: seq<string>)
    ensures r == lines + ItemLines(rows)
  {
    r := lines;
    for k := 0 to |rows|
      invariant r == lines + ItemLines(rows[..k])
    {
      assert rows[..k + 1][..k] == rows[..k];
      r := r + [ItemLine(rows[k])];
    }
    assert rows[..|rows|] == rows;
  }

  /** Listing one more task creates its records and shows it as on the original ledger. */
  lemma ListingStep(items: map<int, Item>, c: map<Key, int>, seen: set<int>, t: int, year: int, month: int)
    ensures var before := Materialize(c, ItemPeriodKeys(items, seen, year, month));
      var ks := PeriodKeys(TaskItemIds(items, t), year, month);
      Materialize(before, ks) == Materialize(c, ItemPeriodKeys(items, seen + {t}, year, month)) &&
      AnnotatedChecklist(items, before, t, year, month) == AnnotatedChecklist(items, c, t, year, month)
  {
    var ks := PeriodKeys(TaskItemIds(items, t), year, month);
    MaterializeTwice(c, ItemPeriodKeys(items, seen, year, month), ks);
    ItemPeriodKeysAdd(items, seen, t, year, month);
    AnnotatedOfMaterialized(items, c, ItemPeriodKeys(items, seen, year, month), t, year, month);
  }
}
