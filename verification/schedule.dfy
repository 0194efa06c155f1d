/**
 * The schedule resolver: which months a task is due in.
 *
 * A task's schedule is a type (`monthly`, `quarterly` or `custom`) and an
 * optional comma-separated list of months. `monthly` tasks are due every
 * month; every other type is due in the months its list names.
 */
module Schedule {
  import opened Wrappers
  import opened Text

  const Monthly: string := "monthly"

  /** The tokens kept by the `if m.strip()` filter of the month-list comprehension. */
  function NonBlank(tokens: seq<string>): (r: seq<string>)
    ensures |r| <= |tokens|
  {
    if tokens == [] then []
    else (if Blank(tokens[0]) then [] else [tokens[0]]) + NonBlank(tokens[1..])
  }

  /** The kept tokens are exactly the non-blank ones. */
  lemma {:induction false} NonBlankMembers(tokens: seq<string>)
    ensures forall t :: t in NonBlank(tokens) <==> t in tokens && !Blank(t)
  {
    if tokens != [] {
      NonBlankMembers(tokens[1..]);
      assert tokens == [tokens[0]] + tokens[1..];
    }
  }

  /**
   * `[int(m) for m in tokens]`: one token that `int()` rejects raises, and the
   * whole list is lost.
   */
  function ParseAll(tokens: seq<string>): (r: Option<seq<int>>)
    ensures r.Some? ==> |r.value| == |tokens|
  {
    if tokens == [] then Some([])
    else
      var head, rest := ParseInt(tokens[0]), ParseAll(tokens[1..]);
      if head.Some? && rest.Some? then Some([head.value] + rest.value) else None
  }

  /**
   * The comprehension succeeds exactly when every token is an integer, and
   * then reads each token in place.
   */
  lemma {:induction false} ParseAllReadsEach(tokens: seq<string>)
    ensures ParseAll(tokens).Some? <==> forall k :: 0 <= k < |tokens| ==> ParseInt(tokens[k]).Some?
    ensures ParseAll(tokens).Some? ==>
      forall k :: 0 <= k < |tokens| ==> ParseInt(tokens[k]) == Some(ParseAll(tokens).value[k])
  {
    if tokens != [] {
      ParseAllReadsEach(tokens[1..]);
      assert forall k :: 1 <= k < |tokens| ==> tokens[1..][k - 1] == tokens[k];
    }
  }

  /** `[m for m in months if 1 <= m <= 12]`. */
  function InRange(months: seq<int>): (r: seq<int>)
    ensures |r| <= |months|
    ensures forall k :: 0 <= k < |r| ==> 1 <= r[k] <= 12
  {
    if months == [] then []
    else (if 1 <= months[0] <= 12 then [months[0]] else []) + InRange(months[1..])
  }

  /** The kept months are exactly the listed ones that lie in 1..12. */
  lemma {:induction false} InRangeMembers(months: seq<int>)
    ensures forall m :: m in InRange(months) <==> m in months && 1 <= m <= 12
  {
    if months != [] {
      InRangeMembers(months[1..]);
      assert months == [months[0]] + months[1..];
    }
  }

  /**
   * The comprehension of `parse_month_list` over the comma-separated tokens:
   * the in-range months, or `None` when some non-blank token is not an integer.
   */
  function TokenMonths(tokens: seq<string>): (r: Option<seq<int>>)
    ensures r.Some? ==> forall k :: 0 <= k < |r.value| ==> 1 <= r.value[k] <= 12
  {
    match ParseAll(NonBlank(tokens))
    case None => None
    case Some(months) => Some(InRange(months))
  }

  /**
   * `parse_month_list`: the months named in a comma-separated list, in the
   * order written. `None`, the empty string, or any non-blank token that is not
   * an integer give the empty list; integers outside 1..12 are dropped.
   */
  function ParseMonthList(detail: Option<string>): (r: seq<int>)
    ensures forall k :: 0 <= k < |r| ==> 1 <= r[k] <= 12
    ensures detail == None || detail == Some("") ==> r == []
  {
    if detail.None? || detail.value == "" then []
    else TokenMonths(Split(detail.value, ',')).GetOr([])
  }

  /** The months listed in `s` when `s` is present. */
  function MonthsOf(s: string): seq<int> {
    ParseMonthList(Some(s))
  }

  /** Every non-blank token of `s` is an integer: the list does not collapse. */
  predicate WellFormed(s: string) {
    TokenMonths(Split(s, ',')).Some?
  }

  /** The empty string is well formed and lists no month, like `None`. */
  lemma EmptyList()
    ensures WellFormed("") && TokenMonths(Split("", ',')) == Some([])
  {
    assert Split("", ',') == [""];
    StripOfTrimmed("");
    assert NonBlank([""]) == [];
  }

  /** The empty string needs no special case: its single token is blank. */
  lemma MonthsOfTokens(s: string)
    ensures MonthsOf(s) == TokenMonths(Split(s, ',')).GetOr([])
  {
    if s == "" {
      EmptyList();
    }
  }

  /**
   * For a well-formed list, a month is listed exactly when it lies in 1..12
   * and some non-blank token reads as it.
   */
  lemma MonthListMembership(s: string, m: int)
    requires WellFormed(s)
    ensures m in MonthsOf(s) <==>
      1 <= m <= 12 && exists t :: t in Split(s, ',') && !Blank(t) && ParseInt(t) == Some(m)
  {
    MonthsOfTokens(s);
    var ts := Split(s, ',');
    var tokens := NonBlank(ts);
    var ms := ParseAll(tokens).value;
    assert MonthsOf(s) == InRange(ms);
    NonBlankMembers(ts);
    InRangeMembers(ms);
    ParseAllReadsEach(tokens);
    if m in MonthsOf(s) {
      var k :| 0 <= k < |ms| && ms[k] == m;
      assert tokens[k] in ts && ParseInt(tokens[k]) == Some(m);
    }
    if 1 <= m <= 12 && exists t :: t in ts && !Blank(t) && ParseInt(t) == Some(m) {
      var t :| t in ts && !Blank(t) && ParseInt(t) == Some(m);
      var k :| 0 <= k < |tokens| && tokens[k] == t;
      assert ms[k] == m;
    }
  }

  /** A single non-blank token that is not an integer empties the whole list. */
  lemma MalformedTokenEmptiesList(s: string, k: nat)
    requires k < |Split(s, ',')|
    requires !Blank(Split(s, ',')[k]) && ParseInt(Split(s, ',')[k]).None?
    ensures !WellFormed(s) && MonthsOf(s) == []
  {
    MonthsOfTokens(s);
    var tokens := NonBlank(Split(s, ','));
    var t := Split(s, ',')[k];
    NonBlankMembers(Split(s, ','));
    assert t in tokens;
    var j :| 0 <= j < |tokens| && tokens[j] == t;
    ParseAllReadsEach(tokens);
  }

  lemma {:induction false} NonBlankAppend(a: seq<string>, b: seq<string>)
    ensures NonBlank(a + b) == NonBlank(a) + NonBlank(b)
    decreases |a|
  {
    if a != [] {
      assert (a + b)[1..] == a[1..] + b;
      NonBlankAppend(a[1..], b);
    } else {
      assert a + b == b;
    }
  }

  lemma {:induction false} ParseAllAppend(a: seq<string>, b: seq<string>)
    ensures ParseAll(a + b) ==
      if ParseAll(a).Some? && ParseAll(b).Some? then Some(ParseAll(a).value + ParseAll(b).value)
      else None
    decreases |a|
  {
    if a != [] {
      assert (a + b)[1..] == a[1..] + b;
      ParseAllAppend(a[1..], b);
      if ParseAll(a).Some? && ParseAll(b).Some? {
        var v, x, y := ParseAll(a).value[0], ParseAll(a[1..]).value, ParseAll(b).value;
        assert ParseAll(a).value == [v] + x;
        assert [v] + (x + y) == ([v] + x) + y;
      }
    } else {
      assert a + b == b;
      if ParseAll(b).Some? {
        assert [] + ParseAll(b).value == ParseAll(b).value;
      }
    }
  }

  lemma {:induction false} InRangeAppend(a: seq<int>, b: seq<int>)
    ensures InRange(a + b) == InRange(a) + InRange(b)
    decreases |a|
  {
    if a != [] {
      assert (a + b)[1..] == a[1..] + b;
      InRangeAppend(a[1..], b);
    } else {
      assert a + b == b;
    }
  }

  lemma TokenMonthsAppend(p: seq<string>, q: seq<string>)
    ensures TokenMonths(p + q) ==
      if TokenMonths(p).Some? && TokenMonths(q).Some? then Some(TokenMonths(p).value + TokenMonths(q).value)
      else None
  {
    NonBlankAppend(p, q);
    ParseAllAppend(NonBlank(p), NonBlank(q));
    if TokenMonths(p).Some? && TokenMonths(q).Some? {
      InRangeAppend(ParseAll(NonBlank(p)).value, ParseAll(NonBlank(q)).value);
    }
  }

  /**
   * The list keeps the order in which the months are written: the months of
   * `a,b` are the months of `a` followed by those of `b`, unless one side holds
   * a token that is not an integer, in which case the list is empty.
   */
  lemma MonthListAppend(a: string, b: string)
    ensures MonthsOf(a + "," + b) ==
      if WellFormed(a) && WellFormed(b) then MonthsOf(a) + MonthsOf(b) else []
    ensures WellFormed(a + "," + b) <==> WellFormed(a) && WellFormed(b)
  {
    var s := a + [','] + b;
    assert a + "," + b == s;
    MonthsOfTokens(a);
    MonthsOfTokens(b);
    MonthsOfTokens(s);
    SplitAppend(a, b, ',');
    TokenMonthsAppend(Split(a, ','), Split(b, ','));
  }

  /** Blank tokens, at either end, are skipped. */
  lemma BlankTokenSkipped(a: string, b: string)
    requires Blank(b)
    ensures MonthsOf(a + "," + b) == MonthsOf(a)
    ensures MonthsOf(b + "," + a) == MonthsOf(a)
  {
    BlankIffAllSpace(b);
    assert forall k :: 0 <= k < |b| ==> b[k] != ',';
    SplitWithoutSep(b, ',');
    assert NonBlank([b]) == [];
    assert TokenMonths([b]) == Some([]);
    MonthsOfTokens(a);
    MonthsOfTokens(b);
    MonthListAppend(a, b);
    MonthListAppend(b, a);
    if WellFormed(a) {
      assert MonthsOf(a) + [] == MonthsOf(a);
      assert [] + MonthsOf(a) == MonthsOf(a);
    }
  }

  /** A single written month is listed alone when it lies in 1..12, and dropped otherwise. */
  lemma SingleMonth(m: int)
    ensures WellFormed(IntToString(m))
    ensures MonthsOf(IntToString(m)) == if 1 <= m <= 12 then [m] else []
  {
    var s := IntToString(m);
    assert ',' !in s;
    SplitWithoutSep(s, ',');
    ParseIntToString(m);
    assert !Blank(s) by {
      assert !IsSpace(s[0]);
      BlankIffAllSpace(s);
    }
    assert NonBlank([s]) == [s];
    assert [s][1..] == [];
    assert [m] + [] == [m];
    assert ParseAll([s]) == Some([m]);
  }

  /**
   * A month followed by whitespace of any kind, such as the ideographic space
   * U+3000, is read as the month alone.
   */
  lemma PaddedMonth(m: int, pad: string)
    requires AllSpace(pad)
    ensures MonthsOf(IntToString(m) + pad) == if 1 <= m <= 12 then [m] else []
  {
    var d := IntToString(m);
    var s := d + pad;
    assert ',' !in s by {
      forall k | 0 <= k < |s| ensures s[k] != ',' {
        if k >= |d| {
          assert s[k] == pad[k - |d|];
        }
      }
    }
    SplitWithoutSep(s, ',');
    StripPadded(d, pad);
    ParseIntIgnoresSpace(s);
    ParseIntToString(m);
    StripOfTrimmed(d);
    assert !Blank(s);
    assert NonBlank([s]) == [s];
    assert [s][1..] == [];
    assert [m] + [] == [m];
    assert ParseAll([s]) == Some([m]);
  }

  /** `"3\u3000"` lists March: the full-width space is stripped like any other whitespace. */
  lemma FullWidthSpaceExample()
    ensures MonthsOf("3\U{3000}") == [3]
  {
    assert IntToString(3) + "\U{3000}" == "3\U{3000}";
    PaddedMonth(3, "\U{3000}");
  }

  /** The text of the quarterly list "1,4,7,10", written from its four months. */
  lemma QuarterlyText()
    ensures IntToString(1) + "," + (IntToString(4) + "," + (IntToString(7) + "," + IntToString(10))) == "1,4,7,10"
  {
    assert IntToString(10) == "10";
  }

  /** Two parsing lists joined with a comma list the first one's months, then the second one's. */
  lemma JoinedMonths(x: string, y: string, mx: seq<int>, my: seq<int>)
    requires WellFormed(x) && MonthsOf(x) == mx
    requires WellFormed(y) && MonthsOf(y) == my
    ensures WellFormed(x + "," + y) && MonthsOf(x + "," + y) == mx + my
  {
    MonthListAppend(x, y);
  }

  /** The months of `a,b,c,d` for four months written in 1..12. */
  lemma FourMonths(a: int, b: int, c: int, d: int)
    requires 1 <= a <= 12 && 1 <= b <= 12 && 1 <= c <= 12 && 1 <= d <= 12
    ensures MonthsOf(IntToString(a) + "," + (IntToString(b) + "," + (IntToString(c) + "," + IntToString(d))))
      == [a, b, c, d]
  {
    var sa, sb, sc, sd := IntToString(a), IntToString(b), IntToString(c), IntToString(d);
    SingleMonth(a); SingleMonth(b); SingleMonth(c); SingleMonth(d);
    JoinedMonths(sc, sd, [c], [d]);
    JoinedMonths(sb, sc + "," + sd, [b], [c] + [d]);
    JoinedMonths(sa, sb + "," + (sc + "," + sd), [a], [b] + ([c] + [d]));
    FourSingles(a, b, c, d);
  }

  lemma FourSingles(a: int, b: int, c: int, d: int)
    ensures [a] + ([b] + ([c] + [d])) == [a, b, c, d]
  {
  }

  /** The quarterly list "1,4,7,10" names exactly those months, in that order. */
  lemma QuarterlyExample(s: string)
    requires s == "1,4,7,10"
    ensures MonthsOf(s) == [1, 4, 7, 10]
  {
    QuarterlyText();
    FourMonths(1, 4, 7, 10);
  }

  /** A list that starts with a token that is not an integer lists no month at all. */
  lemma LeadingJunkEmptiesList(bad: string, rest: string)
    requires ',' !in bad && !Blank(bad) && ParseInt(bad).None?
    ensures MonthsOf(bad + "," + rest) == []
  {
    var s := bad + [','] + rest;
    assert bad + "," + rest == s;
    SplitAppend(bad, rest, ',');
    SplitWithoutSep(bad, ',');
    assert Split(s, ',')[0] == bad;
    MalformedTokenEmptiesList(s, 0);
  }

  /**
   * "abc" is such a token: "abc,13,0,5" lists no month, although the
   * documented behaviour keeps month 5.
   */
  lemma AbcIsNotAMonth()
    ensures ',' !in "abc" && !Blank("abc") && ParseInt("abc").None?
  {
    StripOfTrimmed("abc");
    ParseIntOfStripped("abc");
  }

  /**
   * The months a schedule names: `range(1, 13)` for a monthly task, the parsed
   * month list otherwise.
   */
  function DueMonthList(scheduleType: string, detail: Option<string>): (r: seq<int>)
    ensures forall m :: m in r ==> 1 <= m <= 12
    ensures scheduleType == Monthly ==> forall m :: 1 <= m <= 12 ==> m in r
    ensures scheduleType != Monthly ==> r == ParseMonthList(detail)
  {
    if scheduleType == Monthly then
      [1, 2, 3, 4, 5, 6, 7, 8, 9, 10, 11, 12]
    else ParseMonthList(detail)
  }

  /** The due test of `get_tasks_for_month`: `month in due_months`. */
  predicate IsDue(month: int, scheduleType: string, detail: Option<string>) {
    month in DueMonthList(scheduleType, detail)
  }

  /** A monthly task is due in every month 1..12 whatever its month list says, and in no other. */
  lemma MonthlyDueEveryMonth(month: int, detail: Option<string>)
    ensures IsDue(month, Monthly, detail) <==> 1 <= month <= 12
  {
  }

  /** Any other task is due exactly in the months its list names. */
  lemma ListedDue(month: int, scheduleType: string, detail: Option<string>)
    requires scheduleType != Monthly
    ensures IsDue(month, scheduleType, detail) <==> month in ParseMonthList(detail)
  {
  }
}
