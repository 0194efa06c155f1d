/**
 * The few pieces of Python string handling the inspection tracker relies on:
 * `str.strip()`, `str.split(sep)`, `str.split(sep, maxsplit)`, the decimal
 * rendering of an `int` in an f-string and the parse done by `int(str)`.
 */
module Text {
  import opened Wrappers

  /**
   * The characters Python's `str.isspace()` accepts, which `str.strip()` and
   * `int()` remove: tab through carriage return, the separators `\x1c`-`\x1f`,
   * space, NEL, no-break space, and the Unicode space and line separators up to
   * the ideographic space U+3000.
   */
  predicate IsSpace(c: char) {
    if c <= ' ' then ('\t' <= c <= '\r' || '\U{1c}' <= c)
    else if c < '\U{85}' then false
    else (c == '\U{85}' || c == '\U{a0}' || c == '\U{1680}' || ('\U{2000}' <= c <= '\U{200a}') ||
          c == '\U{2028}' || c == '\U{2029}' || c == '\U{202f}' || c == '\U{205f}' || c == '\U{3000}')
  }

  predicate AllSpace(s: string) {
    forall k :: 0 <= k < |s| ==> IsSpace(s[k])
  }

  /** Leading whitespace removed: what is left is a suffix of `s`. */
  function TrimLeft(s: string): (r: string)
    ensures |r| <= |s|
    ensures r == [] || !IsSpace(r[0])
  {
    if |s| > 0 && IsSpace(s[0]) then TrimLeft(s[1..]) else s
  }

  /** Trailing whitespace removed: what is left is a prefix of `s`. */
  function TrimRight(s: string): (r: string)
    ensures |r| <= |s|
    ensures r == [] || !IsSpace(r[|r| - 1])
  {
    if |s| > 0 && IsSpace(s[|s| - 1]) then TrimRight(s[..|s| - 1]) else s
  }

  /** Python's `s.strip()`: whitespace removed at both ends. */
  function Strip(s: string): (r: string)
    ensures |r| <= |s|
    ensures r == [] || (!IsSpace(r[0]) && !IsSpace(r[|r| - 1]))
  {
    var l := TrimLeft(s);
    TrimRightDrops(l);
    TrimRight(l)
  }

  /** A string that is empty after stripping: Python's `not s.strip()`. */
  predicate Blank(s: string) {
    Strip(s) == []
  }

  /** `TrimLeft` drops only whitespace, and only from the front. */
  lemma {:induction false} TrimLeftDrops(s: string)
    ensures var r := TrimLeft(s); r == s[|s| - |r|..] && AllSpace(s[..|s| - |r|])
  {
    if |s| > 0 && IsSpace(s[0]) {
      TrimLeftDrops(s[1..]);
      var r := TrimLeft(s);
      assert s[1..][..|s| - 1 - |r|] == s[1..|s| - |r|];
    }
  }

  /** `TrimRight` drops only whitespace, and only from the back. */
  lemma {:induction false} TrimRightDrops(s: string)
    ensures var r := TrimRight(s); r == s[..|r|] && AllSpace(s[|r|..])
  {
    if |s| > 0 && IsSpace(s[|s| - 1]) {
      TrimRightDrops(s[..|s| - 1]);
      var r := TrimRight(s);
      assert s[..|s| - 1][|r|..] == s[|r|..|s| - 1];
    }
  }

  lemma {:induction false} TrimLeftOfNonSpace(s: string)
    requires s == [] || !IsSpace(s[0])
    ensures TrimLeft(s) == s
  {
  }

  lemma {:induction false} TrimRightOfNonSpace(s: string)
    requires s == [] || !IsSpace(s[|s| - 1])
    ensures TrimRight(s) == s
  {
  }

  /** A string that starts and ends with a non-space is its own strip. */
  lemma StripOfTrimmed(s: string)
    requires s == [] || (!IsSpace(s[0]) && !IsSpace(s[|s| - 1]))
    ensures Strip(s) == s
  {
    TrimLeftOfNonSpace(s);
    TrimRightOfNonSpace(s);
  }

  /** Whitespace after text that ends in a non-space is all `TrimRight` removes. */
  lemma {:induction false} TrimRightPadded(s: string, pad: string)
    requires s != [] && !IsSpace(s[|s| - 1]) && AllSpace(pad)
    ensures TrimRight(s + pad) == s
  {
    if pad == [] {
      assert s + pad == s;
      TrimRightOfNonSpace(s);
    } else {
      var p := pad[..|pad| - 1];
      assert (s + pad)[..|s + pad| - 1] == s + p;
      assert IsSpace((s + pad)[|s + pad| - 1]);
      TrimRightPadded(s, p);
    }
  }

  /** `strip()` removes trailing whitespace of any kind, such as U+3000, from stripped text. */
  lemma StripPadded(s: string, pad: string)
    requires s != [] && !IsSpace(s[0]) && !IsSpace(s[|s| - 1]) && AllSpace(pad)
    ensures Strip(s + pad) == s
  {
    assert (s + pad)[0] == s[0];
    TrimLeftOfNonSpace(s + pad);
    TrimRightPadded(s, pad);
  }

  /**
   * Text made only of the full-width space U+3000, the no-break space U+00A0 or
   * the file separator U+001C is blank, as `str.strip()` leaves nothing of it.
   */
  lemma WideSpacesBlank()
    ensures Blank("\U{3000}") && Blank("\U{a0}\U{a0}") && Blank("\U{1c}")
  {
    BlankIffAllSpace("\U{3000}");
    BlankIffAllSpace("\U{a0}\U{a0}");
    BlankIffAllSpace("\U{1c}");
  }

  /** Stripping twice is stripping once. */
  lemma StripIdempotent(s: string)
    ensures Strip(Strip(s)) == Strip(s)
  {
    StripOfTrimmed(Strip(s));
  }

  /** A string is blank exactly when every character of it is whitespace. */
  lemma {:induction false} BlankIffAllSpace(s: string)
    ensures Blank(s) <==> AllSpace(s)
  {
    var l := TrimLeft(s);
    TrimLeftDrops(s);
    TrimRightDrops(l);
    if AllSpace(s) {
      assert l == s[|s| - |l|..];
    } else {
      var k :| 0 <= k < |s| && !IsSpace(s[k]);
      var p := |s| - |l|;
      assert forall j :: 0 <= j < p ==> s[..p][j] == s[j];
      assert k >= p;
      var i := k - p;
      assert l[i] == s[k];
      var r := TrimRight(l);
      assert forall j :: |r| <= j < |l| ==> l[|r|..][j - |r|] == l[j];
      assert i < |r|;
    }
  }

  // ---------------------------------------------------------------------------
  // Splitting and joining on a separator character

  /** Python's `s.split(sep)` for a one-character separator: never empty. */
  function Split(s: string, sep: char): (r: seq<string>)
    ensures |r| >= 1
    ensures forall k :: 0 <= k < |r| ==> sep !in r[k]
    ensures Join(r, sep) == s
  {
    if |s| == 0 then [""]
    else if s[0] == sep then [""] + Split(s[1..], sep)
    else
      var rest := Split(s[1..], sep);
      [[s[0]] + rest[0]] + rest[1..]
  }

  /** Python's `sep.join(parts)`. */
  function Join(parts: seq<string>, sep: char): string
  {
    if |parts| == 0 then ""
    else if |parts| == 1 then parts[0]
    else parts[0] + [sep] + Join(parts[1..], sep)
  }

  /** Splitting a joined list gives the list back when no part holds the separator. */
  lemma {:induction false} SplitJoin(parts: seq<string>, sep: char)
    requires |parts| >= 1
    requires forall k :: 0 <= k < |parts| ==> sep !in parts[k]
    ensures Split(Join(parts, sep), sep) == parts
    decreases |parts|, |parts[0]|
  {
    var p := parts[0];
    if |parts| == 1 {
      if p != [] {
        assert p[0] != sep;
        SplitJoin([p[1..]], sep);
        assert [p[0]] + p[1..] == p;
      }
    } else if p == [] {
      var s := Join(parts, sep);
      assert s == [sep] + Join(parts[1..], sep);
      assert s[1..] == Join(parts[1..], sep);
      SplitJoin(parts[1..], sep);
      assert [""] + parts[1..] == parts;
    } else {
      var s := Join(parts, sep);
      var parts' := [p[1..]] + parts[1..];
      assert parts'[1..] == parts[1..];
      assert s == [p[0]] + Join(parts', sep) by {
        assert Join(parts', sep) == p[1..] + [sep] + Join(parts[1..], sep);
        assert [p[0]] + p[1..] == p;
      }
      assert s[1..] == Join(parts', sep);
      assert s[0] == p[0] != sep;
      SplitJoin(parts', sep);
      assert Split(s, sep) == [[p[0]] + parts'[0]] + parts'[1..];
      assert [p[0]] + p[1..] == p;
      assert [p] + parts[1..] == parts;
    }
  }

  /** Joining two non-empty lists joins their joins. */
  lemma {:induction false} JoinAppend(p: seq<string>, q: seq<string>, sep: char)
    requires |p| >= 1 && |q| >= 1
    ensures Join(p + q, sep) == Join(p, sep) + [sep] + Join(q, sep)
    decreases |p|
  {
    if |p| > 1 {
      assert (p + q)[1..] == p[1..] + q;
      JoinAppend(p[1..], q, sep);
    } else {
      assert (p + q)[1..] == q;
    }
  }

  /** Splitting at an added separator splits the two halves separately. */
  lemma SplitAppend(a: string, b: string, sep: char)
    ensures Split(a + [sep] + b, sep) == Split(a, sep) + Split(b, sep)
  {
    var pa, pb := Split(a, sep), Split(b, sep);
    var parts := pa + pb;
    JoinAppend(pa, pb, sep);
    SplitJoin(parts, sep);
  }

  /** A string without the separator splits into itself alone. */
  lemma SplitWithoutSep(s: string, sep: char)
    requires sep !in s
    ensures Split(s, sep) == [s]
  {
    SplitJoin([s], sep);
  }

  /** Python's `s.split(sep, maxsplit)`: at most `maxsplit` splits, taken from the left. */
  function SplitMax(s: string, sep: char, maxsplit: nat): (r: seq<string>)
    ensures 1 <= |r| <= maxsplit + 1
    ensures Join(r, sep) == s
    ensures forall k :: 0 <= k < |r| - 1 ==> sep !in r[k]
    ensures |r| <= maxsplit ==> sep !in r[|r| - 1]
  {
    if maxsplit == 0 || sep !in s then [s]
    else
      var i := IndexOf(s, sep);
      var rest := SplitMax(s[i + 1..], sep, maxsplit - 1);
      assert ([s[..i]] + rest)[1..] == rest;
      assert s == s[..i] + [sep] + s[i + 1..];
      [s[..i]] + rest
  }

  /** Splitting off the first field at a separator the field does not contain. */
  lemma SplitMaxAppend(a: string, b: string, sep: char, maxsplit: nat)
    requires sep !in a && maxsplit >= 1
    ensures SplitMax(a + [sep] + b, sep, maxsplit) == [a] + SplitMax(b, sep, maxsplit - 1)
  {
    var s := a + [sep] + b;
    IndexOfAppend(a, b, sep);
    assert s[..|a|] == a;
    assert s[|a| + 1..] == b;
  }

  /** The position of the first `c` in `s`. */
  function IndexOf(s: string, c: char): (i: nat)
    requires c in s
    ensures i < |s| && s[i] == c && c !in s[..i]
  {
    if s[0] == c then 0 else 1 + IndexOf(s[1..], c)
  }

  lemma IndexOfAppend(a: string, b: string, c: char)
    requires c !in a
    ensures c in a + [c] + b && IndexOf(a + [c] + b, c) == |a|
  {
    var s := a + [c] + b;
    assert s[|a|] == c;
    var i := IndexOf(s, c);
    assert forall j :: 0 <= j < |a| ==> s[j] == a[j];
  }

  // ---------------------------------------------------------------------------
  // Decimal integers: the f-string rendering and `int(str)`

  predicate IsDigit(c: char) {
    '0' <= c <= '9'
  }

  predicate AllDigits(s: string) {
    forall k :: 0 <= k < |s| ==> IsDigit(s[k])
  }

  function DigitChar(d: nat): (c: char)
    requires d < 10
    ensures IsDigit(c)
  {
    ('0' as int + d) as char
  }

  function DigitValue(c: char): (d: nat)
    requires IsDigit(c)
    ensures d < 10 && DigitChar(d) == c
  {
    c as int - '0' as int
  }

  /** The value of a non-empty run of decimal digits; `None` for anything else. */
  function DigitsValue(s: string): (r: Option<nat>)
    ensures r.Some? ==> |s| >= 1
  {
    if |s| == 0 || !IsDigit(s[|s| - 1]) then None
    else if |s| == 1 then Some(DigitValue(s[0]))
    else
      var high := DigitsValue(s[..|s| - 1]);
      if high.None? then None else Some(10 * high.value + DigitValue(s[|s| - 1]))
  }

  /** The decimal digits of `n`, without leading zeros. */
  function NatToString(n: nat): (r: string)
    ensures |r| >= 1 && AllDigits(r)
    ensures r[0] == '0' ==> n == 0
  {
    if n < 10 then [DigitChar(n)] else NatToString(n / 10) + [DigitChar(n % 10)]
  }

  /** The text `f"{n}"` produces for an int. */
  function IntToString(n: int): (r: string)
    ensures |r| >= 1 && forall k :: 0 <= k < |r| ==> IsDigit(r[k]) || r[k] == '-'
  {
    if n < 0 then "-" + NatToString(-n) else NatToString(n)
  }

  lemma {:induction false} NatToStringValue(n: nat)
    ensures DigitsValue(NatToString(n)) == Some(n)
  {
    if n >= 10 {
      var s := NatToString(n);
      assert s[..|s| - 1] == NatToString(n / 10);
      NatToStringValue(n / 10);
    }
  }

  /** Reads an optional sign followed by digits. */
  function ParseSignedDigits(t: string): Option<int>
  {
    if |t| >= 1 && (t[0] == '-' || t[0] == '+') then
      var v := DigitsValue(t[1..]);
      if v.None? then None else Some(if t[0] == '-' then -(v.value as int) else v.value)
    else
      var v := DigitsValue(t);
      if v.None? then None else Some(v.value)
  }

  /**
   * The text `int(s)` accepts: after stripping, a non-empty run of digits with
   * an optional leading sign.
   */
  function ParseInt(s: string): (r: Option<int>)
    ensures r.Some? ==> !Blank(s)
  {
    ParseSignedDigits(Strip(s))
  }

  /** `int(f"{n}") == n`: the rendering of an integer parses back to it. */
  lemma ParseIntToString(n: int)
    ensures ParseInt(IntToString(n)) == Some(n)
  {
    var s := IntToString(n);
    if n < 0 {
      var d := NatToString(-n);
      assert s == ['-'] + d && s[1..] == d;
      NatToStringValue(-n);
      ParseSigned(s, d);
    } else {
      var d := NatToString(n);
      assert s == d;
      NatToStringValue(n);
      ParseDigits(d);
    }
  }

  /** Text that is already stripped is read as it stands. */
  lemma ParseIntOfStripped(s: string)
    requires Strip(s) == s
    ensures ParseInt(s) == ParseSignedDigits(s)
  {
  }

  lemma ParseDigits(d: string)
    requires d != [] && d[0] != '-' && d[0] != '+' && !IsSpace(d[0]) && !IsSpace(d[|d| - 1])
    requires DigitsValue(d).Some?
    ensures ParseInt(d) == Some(DigitsValue(d).value)
  {
    StripOfTrimmed(d);
    ParseIntOfStripped(d);
  }

  lemma SignedDigitsValue(s: string, d: string)
    requires |s| > 1 && (s[0] == '-' || s[0] == '+') && s[1..] == d
    requires DigitsValue(d).Some?
    ensures ParseSignedDigits(s) == Some(if s[0] == '-' then -(DigitsValue(d).value as int) else DigitsValue(d).value)
  {
  }

  lemma ParseSigned(s: string, d: string)
    requires |s| > 1 && (s[0] == '-' || s[0] == '+') && s[1..] == d
    requires !IsSpace(s[|s| - 1])
    requires DigitsValue(d).Some?
    ensures ParseInt(s) == Some(if s[0] == '-' then -(DigitsValue(d).value as int) else DigitsValue(d).value)
  {
    StripOfTrimmed(s);
    ParseIntOfStripped(s);
    SignedDigitsValue(s, d);
  }

  /** Surrounding whitespace does not change what `int()` reads. */
  lemma ParseIntIgnoresSpace(s: string)
    ensures ParseInt(s) == ParseInt(Strip(s))
  {
    StripIdempotent(s);
  }

  /** `int()` rejects blank text. */
  lemma ParseIntOfBlank(s: string)
    requires Blank(s)
    ensures ParseInt(s) == None
  {
  }
}
