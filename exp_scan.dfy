/**
 * The character scanners of the lossless parser and its `Date` type.
 *
 * Every scanner splits its input into a consumed prefix and the rest, and
 * the two always concatenate back to the input; that is what lets the entry
 * parser reproduce a file byte for byte. Character classes are ASCII.
 */
module ExpScan {
  import opened Wrappers
  import opened Text

  // ---------------------------------------------------------------------
  // Character classes
  // ---------------------------------------------------------------------

  predicate IsBlank(c: char) { c == ' ' || c == '\t' }

  predicate IsAlpha(c: char) { 'a' <= c <= 'z' || 'A' <= c <= 'Z' }

  /** The characters an account name is read over: alphanumerics, `-` and `:`. */
  predicate IsAccountChar(c: char) { IsAlpha(c) || IsDigit(c) || c == '-' || c == ':' }

  /** The characters a directive keyword is read over: letters and `*`. */
  predicate IsKeywordChar(c: char) { IsAlpha(c) || c == '*' }

  /** `s` splits into a prefix of `f`-characters that cannot be extended, then the rest. */
  predicate MaximalSplit(s: string, a: string, b: string, f: char -> bool)
  {
    a + b == s
    && (forall k :: 0 <= k < |a| ==> f(a[k]))
    && (b == [] || !f(b[0]))
  }

  lemma AppendAssoc(a: string, b: string, c: string)
    ensures (a + b) + c == a + (b + c)
  {
  }

  /** There is only one maximal split. */
  lemma MaximalSplitUnique(s: string, a: string, b: string, a': string, b': string, f: char -> bool)
    requires MaximalSplit(s, a, b, f) && MaximalSplit(s, a', b', f)
    ensures a == a' && b == b'
  {
    assert forall k :: 0 <= k < |a| ==> f(s[k]) by { assert a == s[..|a|]; }
    assert forall k :: 0 <= k < |a'| ==> f(s[k]) by { assert a' == s[..|a'|]; }
    assert b != [] ==> !f(s[|a|]);
    assert b' != [] ==> !f(s[|a'|]);
    assert |a| == |a'|;
    assert a == s[..|a|] && a' == s[..|a'|];
  }

  /** A maximal split of the tail extends by a head character that satisfies `f`. */
  lemma MaximalSplitCons(s: string, a: string, b: string, f: char -> bool)
    requires s != [] && f(s[0]) && MaximalSplit(s[1..], a, b, f)
    ensures MaximalSplit(s, [s[0]] + a, b, f)
  {
    assert [s[0]] + a + b == [s[0]] + (a + b) == s;
    forall k | 0 <= k < |[s[0]] + a| ensures f(([s[0]] + a)[k]) {
      if k > 0 {
        assert ([s[0]] + a)[k] == a[k - 1];
      }
    }
  }

  // ---------------------------------------------------------------------
  // Scanners
  // ---------------------------------------------------------------------

  /** `split_at_newline`: the first line including its `\n`, then the rest. */
  function SplitAtNewline(s: string): (r: (string, string))
    ensures r.0 + r.1 == s
    ensures '\n' in s ==> r.0 != [] && r.0[|r.0| - 1] == '\n' && '\n' !in r.0[..|r.0| - 1]
    ensures '\n' !in s ==> r == (s, "")
  {
    if s == [] then ("", "")
    else if s[0] == '\n' then ([s[0]], s[1..])
    else
      var (a, b) := SplitAtNewline(s[1..]);
      FirstLineCons(s, a, b);
      ([s[0]] + a, b)
  }

  /** The first-line split of the tail extends by a head character that is not `\n`. */
  lemma FirstLineCons(s: string, a: string, b: string)
    requires s != [] && s[0] != '\n' && a + b == s[1..]
    requires '\n' in s[1..] ==> a != [] && a[|a| - 1] == '\n' && '\n' !in a[..|a| - 1]
    requires '\n' !in s[1..] ==> a == s[1..] && b == ""
    ensures [s[0]] + a + b == s
    ensures '\n' in s ==> [s[0]] + a != [] && ([s[0]] + a)[|a|] == '\n' && '\n' !in ([s[0]] + a)[..|a|]
    ensures '\n' !in s ==> [s[0]] + a == s && b == ""
  {
    assert s == [s[0]] + s[1..];
    assert '\n' in s <==> '\n' in s[1..];
    if a != [] {
      assert ([s[0]] + a)[..|a|] == [s[0]] + a[..|a| - 1];
    }
  }

  /** `read_while`: the longest prefix whose characters all satisfy `f`. */
  function ReadWhile(s: string, f: char -> bool): (r: (string, string))
    ensures MaximalSplit(s, r.0, r.1, f)
  {
    if s == [] || !f(s[0]) then ("", s)
    else
      var (a, b) := ReadWhile(s[1..], f);
      MaximalSplitCons(s, a, b, f);
      ([s[0]] + a, b)
  }

  /** `read_ws`: the longest prefix of spaces and tabs. */
  function ReadWs(s: string): (r: (string, string))
    ensures MaximalSplit(s, r.0, r.1, IsBlank)
  {
    if s == [] || !IsBlank(s[0]) then ("", s)
    else
      var (a, b) := ReadWs(s[1..]);
      MaximalSplitCons(s, a, b, IsBlank);
      ([s[0]] + a, b)
  }

  /** `read_ws1`: like `read_ws`, but at least one space or tab is required. */
  function ReadWs1(s: string): (r: Option<(string, string)>)
    ensures r.None? <==> s == [] || !IsBlank(s[0])
    ensures r.Some? ==> r.value.0 != [] && MaximalSplit(s, r.value.0, r.value.1, IsBlank)
  {
    if s == [] || !IsBlank(s[0]) then None else Some(ReadWs(s))
  }

  /** `read_number`: the longest non-empty prefix of digits. */
  function ReadNumber(s: string): (r: Option<(string, string)>)
    ensures r.None? <==> s == [] || !IsDigit(s[0])
    ensures r.Some? ==> r.value.0 != [] && MaximalSplit(s, r.value.0, r.value.1, IsDigit)
  {
    if s == [] || !IsDigit(s[0]) then None else Some(ReadWhile(s, IsDigit))
  }

  /** `read_char`: the first character and the rest. */
  function ReadChar(s: string): (r: Option<(char, string)>)
    ensures r.None? <==> s == []
    ensures r.Some? ==> [r.value.0] + r.value.1 == s
  {
    if s == [] then None else Some((s[0], s[1..]))
  }

  /** `read_account`: never fails; the longest prefix of account characters. */
  function ReadAccount(s: string): (r: Option<(string, string)>)
    ensures r.Some? && MaximalSplit(s, r.value.0, r.value.1, IsAccountChar)
  {
    Some(ReadWhile(s, IsAccountChar))
  }

  /** The first position of `c` in `s`, if any. */
  function IndexOf(s: string, c: char): (r: Option<nat>)
    ensures r.None? <==> c !in s
    ensures r.Some? ==> r.value < |s| && s[r.value] == c && c !in s[..r.value]
  {
    if s == [] then None
    else if s[0] == c then Some(0)
    else
      assert s == [s[0]] + s[1..];
      match IndexOf(s[1..], c)
      case None => None
      case Some(p) =>
        assert s[..p + 1] == [s[0]] + s[1..][..p];
        Some(p + 1)
  }

  /** `Token` of `read_token`. */
  datatype ScanToken = Whitespace | WhitespaceAndEnd | Comment | StringLit | Invalid

  /** The first characters `read_token` handles; on any other it stops with `todo!()`. */
  predicate TokenStart(s: string)
  {
    s == [] || IsBlank(s[0]) || s[0] == ';' || s[0] == '"'
  }

  /**
   * `read_token`: classifies the start of the input and splits off the
   * token's text. Blanks are `WhitespaceAndEnd` when they run into the end
   * of the line (the `\n` is taken too) or of the input, `Whitespace`
   * otherwise; a comment runs to the end of the line; a string runs to the
   * next quote, even across lines, and without one it is `Invalid` up to
   * the end of the line.
   */
  function ReadToken(s: string): (r: (ScanToken, string, string))
    requires TokenStart(s)
    ensures r.1 + r.2 == s
    ensures s == [] ==> r == (WhitespaceAndEnd, "", "")
    ensures s != [] && IsBlank(s[0]) ==>
      && r.1 != []
      && (r.0 == Whitespace ==> MaximalSplit(s, r.1, r.2, IsBlank) && r.2 != [] && r.2[0] != '\n')
      && (r.0 == WhitespaceAndEnd ==>
            (MaximalSplit(s, r.1, r.2, IsBlank) && r.2 == [])
            || (r.1[|r.1| - 1] == '\n' && MaximalSplit(r.1, r.1[..|r.1| - 1], "\n", IsBlank)))
      && (r.0 == Whitespace || r.0 == WhitespaceAndEnd)
    ensures s != [] && s[0] == ';' ==> r.0 == Comment && (r.1, r.2) == SplitAtNewline(s)
    ensures s != [] && s[0] == '"' ==>
      && (r.0 == StringLit <==> '"' in s[1..])
      && (r.0 == StringLit ==> |r.1| >= 2 && r.1[|r.1| - 1] == '"' && '"' !in r.1[1..|r.1| - 1])
      && (r.0 != StringLit ==> r.0 == Invalid && (r.1, r.2) == SplitAtNewline(s))
  {
    if s == [] then (WhitespaceAndEnd, "", "")
    else if IsBlank(s[0]) then ReadBlankToken(s)
    else if s[0] == ';' then
      var (a, b) := SplitAtNewline(s);
      (Comment, a, b)
    else ReadStringToken(s)
  }

  /** A token starting with a blank: the blanks, and the `\n` after them when there is one. */
  function ReadBlankToken(s: string): (r: (ScanToken, string, string))
    requires s != [] && IsBlank(s[0])
    ensures r.1 + r.2 == s
    ensures r.1 != []
    ensures r.0 == Whitespace ==> MaximalSplit(s, r.1, r.2, IsBlank) && r.2 != [] && r.2[0] != '\n'
    ensures r.0 == WhitespaceAndEnd ==>
      (MaximalSplit(s, r.1, r.2, IsBlank) && r.2 == [])
      || (r.1[|r.1| - 1] == '\n' && MaximalSplit(r.1, r.1[..|r.1| - 1], "\n", IsBlank))
    ensures r.0 == Whitespace || r.0 == WhitespaceAndEnd
  {
    var (ws, rest) := ReadWs(s);
    if rest == [] then (WhitespaceAndEnd, s, "")
    else if rest[0] == '\n' then
      assert (ws + "\n")[..|ws|] == ws;
      assert ws + "\n" + rest[1..] == ws + rest;
      (WhitespaceAndEnd, ws + "\n", rest[1..])
    else (Whitespace, ws, rest)
  }

  /** A token starting with `"`: the string up to its closing quote, or the invalid rest of the line. */
  function ReadStringToken(s: string): (r: (ScanToken, string, string))
    requires s != [] && s[0] == '"'
    ensures r.1 + r.2 == s
    ensures r.0 == StringLit <==> '"' in s[1..]
    ensures r.0 == StringLit ==> |r.1| >= 2 && r.1[|r.1| - 1] == '"' && '"' !in r.1[1..|r.1| - 1]
    ensures r.0 != StringLit ==> r.0 == Invalid && (r.1, r.2) == SplitAtNewline(s)
  {
    match IndexOf(s[1..], '"')
    case Some(p) =>
      assert s[..p + 2][1..p + 1] == s[1..][..p];
      (StringLit, s[..p + 2], s[p + 2..])
    case None =>
      var (a, b) := SplitAtNewline(s);
      (Invalid, a, b)
  }


  /**
   * `read_opt_inline_comment`: the rest of the line must be blanks, then
   * nothing, a `\n` or a `;` comment. The result is the whitespace, the
   * comment (from `;` to the end of the line) and the following lines; with
   * no comment the whole line, `\n` included, counts as whitespace.
   */
  function ReadOptInlineComment(s: string): (r: Option<(string, string, string)>)
    ensures var (line, rest) := SplitAtNewline(s);
      var after := ReadWs(line).1;
      && (r.Some? <==> after == [] || after[0] == '\n' || after[0] == ';')
      && (r.Some? ==> r.value.0 + r.value.1 == line && r.value.2 == rest)
      && (r.Some? && r.value.1 != [] ==> r.value.1[0] == ';' && r.value.0 == ReadWs(line).0)
      && (r.Some? && r.value.1 == [] ==> r.value.0 == line)
  {
    var (line, rest) := SplitAtNewline(s);
    var (ws, comment) := ReadWs(line);
    if comment == [] || comment[0] == '\n' then Some((line, "", rest))
    else if comment[0] == ';' then Some((ws, comment, rest))
    else None
  }

  /** The text of `read_opt_inline_comment` adds back up to its input. */
  lemma InlineCommentConcat(s: string)
    requires ReadOptInlineComment(s).Some?
    ensures var (a, b, c) := ReadOptInlineComment(s).value; a + b + c == s
  {
  }

  // ---------------------------------------------------------------------
  // Dates
  // ---------------------------------------------------------------------

  datatype DateSeparator = Dash | Slash

  /** `DateSeparator::to_char`; `try_from_char` reads it back. */
  function SepChar(sep: DateSeparator): (c: char)
    ensures c == '-' || c == '/'
    ensures SepFromChar(c) == Some(sep)
  {
    match sep
    case Dash => '-'
    case Slash => '/'
  }

  /** `DateSeparator::try_from_char`. */
  function SepFromChar(c: char): (r: Option<DateSeparator>)
    ensures r.Some? <==> c == '-' || c == '/'
    ensures r.Some? ==> (c == '-' <==> r.value == Dash)
  {
    if c == '-' then Some(Dash) else if c == '/' then Some(Slash) else None
  }

  /** The year range of the calendar library's `NaiveDate`. */
  const MinYear: int := -262144
  const MaxYear: int := 262143

  predicate IsLeapYear(y: int)
  {
    y % 4 == 0 && (y % 100 != 0 || y % 400 == 0)
  }

  function DaysInMonth(y: int, m: nat): (n: nat)
    requires 1 <= m <= 12
    ensures 28 <= n <= 31
    ensures n == 29 <==> m == 2 && IsLeapYear(y)
  {
    if m == 2 then (if IsLeapYear(y) then 29 else 28)
    else if m == 4 || m == 6 || m == 9 || m == 11 then 30
    else 31
  }

  /** A day of the proleptic Gregorian calendar within `NaiveDate`'s range. */
  predicate ValidDate(y: int, m: nat, d: nat)
  {
    MinYear <= y <= MaxYear && 1 <= m <= 12 && 1 <= d <= DaysInMonth(y, m)
  }

  /** A calendar day together with the separator it was written with. */
  datatype Date = Date(year: int, month: nat, day: nat, sep: DateSeparator)

  /** `Date::from_ymd_with_sep`: `None` exactly for days that do not exist. */
  function FromYmd(y: int, m: nat, d: nat, sep: DateSeparator): (r: Option<Date>)
    ensures r.Some? <==> ValidDate(y, m, d)
    ensures r.Some? ==> r.value.year == y && r.value.month == m && r.value.day == d && r.value.sep == sep
  {
    if ValidDate(y, m, d) then Some(Date(y, m, d, sep)) else None
  }

  /** Zero-padding a signed year to width 4: the sign counts towards the width. */
  function YearText(y: int): (s: string)
    ensures |s| >= 4 && (y < 0 <==> s[0] == '-')
  {
    if y < 0 then "-" + ZeroPad(-y, 3) else ZeroPad(y, 4)
  }

  /** `Date::to_string`: `YYYY`, separator, `MM`, separator, `DD`. */
  function DateToString(d: Date): (s: string)
    ensures |s| >= 10 && |s| > |YearText(d.year)| && s[|YearText(d.year)|] == SepChar(d.sep)
  {
    YearText(d.year) + [SepChar(d.sep)] + ZeroPad(d.month, 2) + [SepChar(d.sep)] + ZeroPad(d.day, 2)
  }

  /**
   * `read_date`: four digits, a separator, two digits, the same separator,
   * two digits, naming an existing day. Each digit group is read as a whole
   * number, so a fifth year digit or a third month or day digit rejects it.
   */
  function ReadDate(s: string): (r: Option<(Date, string)>)
    ensures r.Some? ==> ValidDate(r.value.0.year, r.value.0.month, r.value.0.day)
    ensures r.Some? ==> 0 <= r.value.0.year <= 9999
    ensures r.Some? ==> DateToString(r.value.0) + r.value.1 == s
  {
    match ReadNumber(s)
    case None => None
    case Some((year, r1)) =>
      ReadNumberDigits(s);
      if |year| != 4 then None else
      match ReadChar(r1)
      case None => None
      case Some((sep1, r2)) =>
        assert s == year + [sep1] + r2 by {
          AppendAssoc(year, [sep1], r2);
        }
        match SepFromChar(sep1)
        case None => None
        case Some(sep) => ReadMonthDay(year, sep1, sep, r2)
  }

  /** What `read_number` returns is all digits and gives back the input. */
  lemma ReadNumberDigits(s: string)
    requires ReadNumber(s).Some?
    ensures AllDigits(ReadNumber(s).value.0)
    ensures ReadNumber(s).value.0 + ReadNumber(s).value.1 == s
  {
    var (a, b) := ReadNumber(s).value;
    assert MaximalSplit(s, a, b, IsDigit);
  }

  /** The rest of `read_date` once the year and the first separator are read. */
  function ReadMonthDay(year: string, sep1: char, sep: DateSeparator, s: string): (r: Option<(Date, string)>)
    requires AllDigits(year) && |year| == 4 && SepFromChar(sep1) == Some(sep)
    ensures r.Some? ==> ValidDate(r.value.0.year, r.value.0.month, r.value.0.day)
    ensures r.Some? ==> 0 <= r.value.0.year <= 9999
    ensures r.Some? ==> DateToString(r.value.0) + r.value.1 == year + [sep1] + s
  {
    match ReadNumber(s)
    case None => None
    case Some((month, r3)) =>
      if |month| != 2 || r3 == [] || r3[0] != sep1 then None
      else
        var r := ReadDay(year, sep1, sep, month, r3[1..]);
        assert r.Some? ==> year + [sep1] + s == (year + [sep1] + month + [sep1]) + r3[1..] by {
          assert s == month + [sep1] + r3[1..];
        }
        r
  }

  /** The day field of `read_date` and the calendar check. */
  function ReadDay(year: string, sep1: char, sep: DateSeparator, month: string, s: string): (r: Option<(Date, string)>)
    requires AllDigits(year) && |year| == 4 && SepFromChar(sep1) == Some(sep)
    requires AllDigits(month) && |month| == 2
    ensures r.Some? ==> ValidDate(r.value.0.year, r.value.0.month, r.value.0.day)
    ensures r.Some? ==> 0 <= r.value.0.year <= 9999
    ensures r.Some? ==> DateToString(r.value.0) + r.value.1 == year + [sep1] + month + [sep1] + s
  {
    match ReadNumber(s)
    case None => None
    case Some((day, r5)) =>
      if |day| != 2 then None
      else
        match FromYmd(DigitsValue(year), DigitsValue(month), DigitsValue(day), sep)
        case None => None
        case Some(date) =>
          DateFieldsRender(year, month, day, sep1, sep);
          DigitsValueBound(year);
          assert Pow10(4) == 10000;
          Some((date, r5))
  }

  /** Rendering the values of the three digit groups gives the groups back. */
  lemma DateFieldsRender(year: string, month: string, day: string, c: char, sep: DateSeparator)
    requires AllDigits(year) && |year| == 4 && AllDigits(month) && |month| == 2
    requires AllDigits(day) && |day| == 2 && SepFromChar(c) == Some(sep)
    ensures DateToString(Date(DigitsValue(year), DigitsValue(month), DigitsValue(day), sep))
      == year + [c] + month + [c] + day
  {
    ZeroPadOfDigits(year);
    ZeroPadOfDigits(month);
    ZeroPadOfDigits(day);
  }

  /** The shape `read_date` accepts, character by character. */
  predicate DateShaped(s: string)
  {
    && |s| >= 10
    && AllDigits(s[..4]) && (s[4] == '-' || s[4] == '/')
    && AllDigits(s[5..7]) && s[7] == s[4]
    && AllDigits(s[8..10]) && (|s| == 10 || !IsDigit(s[10]))
    && ValidDate(DigitsValue(s[..4]), DigitsValue(s[5..7]), DigitsValue(s[8..10]))
  }

  /** A digit group followed by a non-digit is what `read_number` reads. */
  lemma ReadNumberAt(s: string, k: nat)
    requires 1 <= k <= |s| && AllDigits(s[..k]) && (k == |s| || !IsDigit(s[k]))
    ensures ReadNumber(s) == Some((s[..k], s[k..]))
  {
    var r := ReadNumber(s);
    assert s[..k] + s[k..] == s;
    MaximalSplitUnique(s, r.value.0, r.value.1, s[..k], s[k..], IsDigit);
  }

  /** `read_date` succeeds exactly on the inputs that start with a date of that shape. */
  lemma ReadDateAccepts(s: string)
    ensures ReadDate(s).Some? <==> DateShaped(s)
    ensures ReadDate(s).Some? ==> ReadDate(s).value.1 == s[10..]
  {
    if DateShaped(s) {
      ShapedDateReads(s);
    }
    if ReadDate(s).Some? {
      ReadDateShaped(s);
    }
  }

  /** A text of the date shape is read up to its tenth character. */
  lemma ShapedDateReads(s: string)
    requires DateShaped(s)
    ensures ReadDate(s).Some? && ReadDate(s).value.1 == s[10..]
  {
    ReadNumberAt(s, 4);
    var t := s[5..];
    DateTailFields(s, t);
    ShapedMonthDayReads(s[..4], s[4], t);
  }

  /** The month-and-day part of a date-shaped text is read up to its fifth character. */
  lemma ShapedMonthDayReads(year: string, sep1: char, t: string)
    requires AllDigits(year) && |year| == 4 && SepFromChar(sep1).Some?
    requires |t| >= 5 && AllDigits(t[..2]) && t[2] == sep1 && AllDigits(t[3..5]) && (|t| == 5 || !IsDigit(t[5]))
    requires ValidDate(DigitsValue(year), DigitsValue(t[..2]), DigitsValue(t[3..5]))
    ensures var r := ReadMonthDay(year, sep1, SepFromChar(sep1).value, t); r.Some? && r.value.1 == t[5..]
  {
    ReadNumberAt(t, 2);
    var u := t[3..];
    assert u[..2] == t[3..5] && u[2..] == t[5..];
    ReadNumberAt(u, 2);
  }

  /** A number of `n` digits is the first `n` characters, and no digit follows it. */
  lemma ReadNumberPrefix(s: string, n: nat)
    requires ReadNumber(s).Some? && |ReadNumber(s).value.0| == n
    ensures n <= |s| && AllDigits(s[..n]) && (n == |s| || !IsDigit(s[n]))
    ensures ReadNumber(s).value == (s[..n], s[n..])
  {
    var (a, b) := ReadNumber(s).value;
    ReadNumberDigits(s);
    assert s[..n] == a && s[n..] == b;
  }

  /** A text `read_date` accepts has the date shape, and ten characters are consumed. */
  lemma ReadDateShaped(s: string)
    requires ReadDate(s).Some?
    ensures DateShaped(s) && ReadDate(s).value.1 == s[10..]
  {
    var (year, r1) := ReadNumber(s).value;
    ReadNumberPrefix(s, 4);
    var (sep1, t) := ReadChar(r1).value;
    assert r1 == s[4..] && sep1 == s[4] && t == s[5..];
    var sep := SepFromChar(sep1).value;
    assert ReadDate(s) == ReadMonthDay(year, sep1, sep, t);
    ReadMonthDayShaped(year, sep1, sep, t);
    DateTailFields(s, t);
  }

  /** The month, second separator, day and rest of a date text, seen from after the first separator. */
  lemma DateTailFields(s: string, t: string)
    requires |s| >= 10 && t == s[5..]
    ensures t[..2] == s[5..7] && t[2] == s[7] && t[3..5] == s[8..10] && t[5..] == s[10..]
  {
  }

  /** A text `read_date` accepts after the year has the month-and-day shape. */
  lemma ReadMonthDayShaped(year: string, sep1: char, sep: DateSeparator, t: string)
    requires AllDigits(year) && |year| == 4 && SepFromChar(sep1) == Some(sep)
    requires ReadMonthDay(year, sep1, sep, t).Some?
    ensures |t| >= 5 && AllDigits(t[..2]) && t[2] == sep1 && AllDigits(t[3..5]) && (|t| == 5 || !IsDigit(t[5]))
    ensures ValidDate(DigitsValue(year), DigitsValue(t[..2]), DigitsValue(t[3..5]))
    ensures ReadMonthDay(year, sep1, sep, t).value.1 == t[5..]
  {
    ReadNumberPrefix(t, 2);
    var u := t[3..];
    assert t[2..][1..] == u;
    ReadNumberPrefix(u, 2);
    assert u[..2] == t[3..5] && u[2..] == t[5..];
  }

  /** Where each field of a date with a four-digit year sits in its text. */
  lemma DateTextFields(d: Date)
    requires 0 <= d.year <= 9999 && d.month < 100 && d.day < 100
    ensures var s := DateToString(d);
      && |s| == 10 && s[..4] == ZeroPad(d.year, 4) && s[4] == s[7] == SepChar(d.sep)
      && s[5..7] == ZeroPad(d.month, 2) && s[8..10] == ZeroPad(d.day, 2)
  {
    assert Pow10(4) == 10000 && Pow10(2) == 100;
    ZeroPadWidth(d.year, 4);
    ZeroPadWidth(d.month, 2);
    ZeroPadWidth(d.day, 2);
    var y, c, m, dd := ZeroPad(d.year, 4), [SepChar(d.sep)], ZeroPad(d.month, 2), ZeroPad(d.day, 2);
    var s := DateToString(d);
    assert YearText(d.year) == y;
    assert s == (y + c) + (m + c) + dd;
    assert s[..4] == y && s[5..7] == m && s[8..10] == dd;
  }

  /** Different dates with four-digit years are written differently. */
  lemma DateTextInjective(d1: Date, d2: Date)
    requires 0 <= d1.year <= 9999 && d1.month < 100 && d1.day < 100
    requires 0 <= d2.year <= 9999 && d2.month < 100 && d2.day < 100
    requires DateToString(d1) == DateToString(d2)
    ensures d1 == d2
  {
    DateTextFields(d1);
    DateTextFields(d2);
    ZeroPadInjective(d1.year, d2.year, 4);
    ZeroPadInjective(d1.month, d2.month, 2);
    ZeroPadInjective(d1.day, d2.day, 2);
    assert SepFromChar(SepChar(d1.sep)) == Some(d1.sep);
  }

  /**
   * `to_string` of a date with a four-digit year is read back by
   * `read_date` as the same date, whatever non-digit text follows it.
   */
  lemma DateRoundTrip(d: Date, rest: string)
    requires ValidDate(d.year, d.month, d.day) && 0 <= d.year <= 9999
    requires rest == [] || !IsDigit(rest[0])
    ensures ReadDate(DateToString(d) + rest) == Some((d, rest))
  {
    var t := DateToString(d);
    var s := t + rest;
    DateTextFields(d);
    assert s[..4] == t[..4] && s[5..7] == t[5..7] && s[8..10] == t[8..10] && s[10..] == rest;
    ZeroPadValue(d.year, 4);
    ZeroPadValue(d.month, 2);
    ZeroPadValue(d.day, 2);
    assert DateShaped(s);
    ReadDateAccepts(s);
    var (d', rest') := ReadDate(s).value;
    assert rest' == rest;
    assert DateToString(d') == t by {
      assert DateToString(d') + rest == t + rest;
      assert (DateToString(d') + rest)[..|DateToString(d')|] == DateToString(d');
    }
    DateTextInjective(d', d);
  }
}
