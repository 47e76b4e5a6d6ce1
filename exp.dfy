/**
 * The lossless entry parser: a file is cut into entries (directives, comment
 * blocks, ignored and invalid lines) that keep every character of the input,
 * whitespace and comments included, so that writing the entries back gives
 * the file unchanged.
 */
module Exp {
  import opened Wrappers
  import opened Text
  import opened ExpScan

  /** A `txn`/`*` header line; `to_string` does not write `narration`. */
  datatype Transaction = Transaction(
    preComments: seq<string>,
    date: Date,
    ws1: string,
    typ: string,
    ws2: string,
    narration: Option<string>,
    inlineComment: string)

  datatype Open = Open(
    preComments: seq<string>,
    date: Date,
    ws1: string,
    ws2: string,
    account: string,
    ws3: string,
    inlineComment: string)

  datatype Close = Close(node: string)

  datatype Directive =
    | TransactionDirective(transaction: Transaction)
    | OpenDirective(open: Open)
    | CloseDirective(close: Close)

  /** `Entry`; its `Pragma` variant wraps an empty enum and has no values. */
  datatype Entry =
    | DirectiveEntry(directive: Directive)
    | CommentBlock(comments: seq<string>)
    | IgnoredLine(line: string)
    | InvalidLine(line: string)

  datatype File = File(filename: string, entries: seq<Entry>)

  // ---------------------------------------------------------------------
  // Writing back
  // ---------------------------------------------------------------------

  /** The comments, then the date; the inline comment last. The narration is not written. */
  function TransactionText(t: Transaction): (r: string)
    ensures Concat(t.preComments) + DateToString(t.date) <= r
    ensures |r| >= |t.inlineComment| && r[|r| - |t.inlineComment|..] == t.inlineComment
  {
    Concat(t.preComments) + DateToString(t.date) + t.ws1 + t.typ + t.ws2 + t.inlineComment
  }

  /** The comments, the date, blanks and `open`, then the account; the inline comment last. */
  function OpenText(o: Open): (r: string)
    ensures Concat(o.preComments) + DateToString(o.date) + o.ws1 + "open" <= r
    ensures |r| >= |o.inlineComment| && r[|r| - |o.inlineComment|..] == o.inlineComment
  {
    Concat(o.preComments) + DateToString(o.date) + o.ws1 + "open" + o.ws2 + o.account + o.ws3 + o.inlineComment
  }

  function DirectiveText(d: Directive): (r: string)
    ensures d.TransactionDirective? ==> Concat(d.transaction.preComments) <= r
    ensures d.OpenDirective? ==> Concat(d.open.preComments) <= r
  {
    match d
    case TransactionDirective(t) => TransactionText(t)
    case OpenDirective(o) => OpenText(o)
    case CloseDirective(c) => c.node
  }

  function EntryText(e: Entry): (r: string)
    ensures e.CommentBlock? && e.comments != [] ==> e.comments[0] <= r
    ensures e.DirectiveEntry? && e.directive.OpenDirective? ==> Concat(e.directive.open.preComments) <= r
  {
    match e
    case DirectiveEntry(d) => DirectiveText(d)
    case CommentBlock(c) => Concat(c)
    case IgnoredLine(l) => l
    case InvalidLine(l) => l
  }

  function EntryTexts(es: seq<Entry>): (r: seq<string>)
    ensures |r| == |es| && forall k :: 0 <= k < |es| ==> r[k] == EntryText(es[k])
  {
    seq(|es|, k requires 0 <= k < |es| => EntryText(es[k]))
  }

  /** `File::to_string`: the entries' texts one after another. */
  function FileText(f: File): (r: string)
    ensures f.entries == [] ==> r == ""
    ensures f.entries != [] ==> EntryText(f.entries[0]) <= r
  {
    Concat(EntryTexts(f.entries))
  }

  /** The narration of a parsed transaction header is not written back. */
  lemma NarrationNotWritten(t: Transaction)
    ensures TransactionText(t) == TransactionText(t.(narration := None))
  {
  }

  // ---------------------------------------------------------------------
  // Parsing
  // ---------------------------------------------------------------------

  /** The characters whose lines are skipped as `IgnoredLine`s. */
  predicate IsIgnoredStart(c: char)
  {
    c == '\n' || c == '*' || c == ':' || c == '#' || c == '!' || c == '&' || c == '?' || c == '%'
  }

  /** A comment line: it starts with `;` and holds no `\n` before its last character. */
  predicate IsCommentLine(l: string)
  {
    l != [] && l[0] == ';' && '\n' !in l[..|l| - 1]
  }

  /**
   * `parse_directive_opt`: a date, blanks, then either `open`, blanks, an
   * account and an optional inline comment, or `txn`/`*` and an optional
   * inline comment. The directive's text is the comment lines handed in
   * followed by everything it consumed.
   */
  function ParseDirectiveOpt(s: string, preComments: seq<string>): (r: Option<(Directive, string)>)
    ensures r.Some? ==> DirectiveText(r.value.0) + r.value.1 == Concat(preComments) + s
    ensures r.Some? ==> |r.value.1| + 10 <= |s|
    ensures r.Some? ==> ReadDate(s).Some? && !r.value.0.CloseDirective?
    ensures r.Some? && r.value.0.OpenDirective? ==>
      r.value.0.open.preComments == preComments && r.value.0.open.date == ReadDate(s).value.0
    ensures r.Some? && r.value.0.TransactionDirective? ==>
      var t := r.value.0.transaction;
      t.preComments == preComments && t.date == ReadDate(s).value.0 && t.narration.None?
      && (t.typ == "txn" || t.typ == "*")
  {
    match ReadDate(s)
    case None => None
    case Some((date, r1)) =>
      match ReadWs1(r1)
      case None => None
      case Some((ws1, r2)) =>
        var (dirType, r3) := ReadWhile(r2, IsKeywordChar);
        DirectiveHeadConcat(s, date, r1, ws1, r2, dirType, r3);
        if dirType == "open" then ParseOpen(s, preComments, date, ws1, r3)
        else if dirType == "txn" || dirType == "*" then ParseTxn(s, preComments, date, ws1, dirType, r3)
        else None
  }

  /** The date, the blanks and the keyword are the front of the line, in that order. */
  lemma DirectiveHeadConcat(s: string, date: Date, r1: string, ws1: string, r2: string, dirType: string, r3: string)
    requires ReadDate(s) == Some((date, r1))
    requires ReadWs1(r1) == Some((ws1, r2))
    requires ReadWhile(r2, IsKeywordChar) == (dirType, r3)
    ensures s == DateToString(date) + ws1 + dirType + r3
  {
    assert r2 == dirType + r3;
    assert r1 == ws1 + r2;
    AppendAssoc(ws1, dirType, r3);
    AppendAssoc(DateToString(date), ws1 + dirType, r3);
    AppendAssoc(DateToString(date), ws1, dirType);
  }

  /** The `txn`/`*` branch of `parse_directive_opt`, after the keyword. */
  function ParseTxn(s: string, preComments: seq<string>, date: Date, ws1: string, dirType: string, r3: string)
    : (r: Option<(Directive, string)>)
    requires s == DateToString(date) + ws1 + dirType + r3
    ensures r.Some? ==> DirectiveText(r.value.0) + r.value.1 == Concat(preComments) + s
    ensures r.Some? ==> |r.value.1| <= |r3| && r.value.0.TransactionDirective?
    ensures r.Some? ==>
      var t := r.value.0.transaction;
      t.preComments == preComments && t.date == date && t.narration.None? && t.typ == dirType
  {
    match ReadOptInlineComment(r3)
    case None => None
    case Some((ws2, comment, r)) =>
      var t := Transaction(preComments, date, ws1, dirType, ws2, None, comment);
      InlineCommentConcat(r3);
      TransactionTextConcat(t, r, r3);
      Some((TransactionDirective(t), r))
  }

  /** The `open` branch of `parse_directive_opt`, after the keyword. */
  function ParseOpen(s: string, preComments: seq<string>, date: Date, ws1: string, r3: string)
    : (r: Option<(Directive, string)>)
    requires s == DateToString(date) + ws1 + "open" + r3
    ensures r.Some? ==> DirectiveText(r.value.0) + r.value.1 == Concat(preComments) + s
    ensures r.Some? ==> |r.value.1| <= |r3| && r.value.0.OpenDirective?
    ensures r.Some? ==> r.value.0.open.preComments == preComments && r.value.0.open.date == date
  {
    match ReadWs1(r3)
    case None => None
    case Some((ws2, r4)) =>
      match ReadAccount(r4)
      case None => None
      case Some((account, r5)) =>
        match ReadOptInlineComment(r5)
        case None => None
        case Some((ws3, comment, r)) =>
          var o := Open(preComments, date, ws1, ws2, account, ws3, comment);
          InlineCommentConcat(r5);
          assert r3 == ws2 + (account + (ws3 + comment + r));
          OpenTextConcat(o, r, r3);
          Some((OpenDirective(o), r))
  }

  /** An `open` line's text, regrouped as the parser reads it. */
  lemma OpenTextConcat(o: Open, r: string, r3: string)
    requires r3 == o.ws2 + (o.account + (o.ws3 + o.inlineComment + r))
    ensures OpenText(o) + r == Concat(o.preComments) + (DateToString(o.date) + o.ws1 + "open" + r3)
  {
    var c, d := Concat(o.preComments), DateToString(o.date);
    calc {
      OpenText(o) + r;
      (c + d + o.ws1 + "open" + o.ws2 + o.account + o.ws3 + o.inlineComment) + r;
      { AppendAssoc(c + d + o.ws1 + "open" + o.ws2 + o.account + o.ws3, o.inlineComment, r);
        AppendAssoc(c + d + o.ws1 + "open" + o.ws2 + o.account, o.ws3, o.inlineComment + r);
        AppendAssoc(o.ws3, o.inlineComment, r); }
      (c + d + o.ws1 + "open" + o.ws2 + o.account) + (o.ws3 + o.inlineComment + r);
      { AppendAssoc(c + d + o.ws1 + "open" + o.ws2, o.account, o.ws3 + o.inlineComment + r); }
      (c + d + o.ws1 + "open" + o.ws2) + (o.account + (o.ws3 + o.inlineComment + r));
      { AppendAssoc(c + d + o.ws1 + "open", o.ws2, o.account + (o.ws3 + o.inlineComment + r)); }
      (c + d + o.ws1 + "open") + r3;
      { AppendAssoc(c + d + o.ws1, "open", r3); }
      (c + d + o.ws1) + ("open" + r3);
      { AppendAssoc(c + d, o.ws1, "open" + r3); }
      (c + d) + (o.ws1 + ("open" + r3));
      { AppendAssoc(c, d, o.ws1 + ("open" + r3)); }
      c + (d + (o.ws1 + ("open" + r3)));
      { AppendAssoc(d, o.ws1, "open" + r3);
        AppendAssoc(d + o.ws1, "open", r3); }
      c + (d + o.ws1 + "open" + r3);
    }
  }

  /** A `txn` line's text, regrouped as the parser reads it. */
  lemma TransactionTextConcat(t: Transaction, r: string, r3: string)
    requires r3 == t.ws2 + t.inlineComment + r
    ensures TransactionText(t) + r == Concat(t.preComments) + (DateToString(t.date) + t.ws1 + t.typ + r3)
  {
    var c, d := Concat(t.preComments), DateToString(t.date);
    calc {
      TransactionText(t) + r;
      (c + d + t.ws1 + t.typ + t.ws2 + t.inlineComment) + r;
      { AppendAssoc(c + d + t.ws1 + t.typ + t.ws2, t.inlineComment, r);
        AppendAssoc(c + d + t.ws1 + t.typ, t.ws2, t.inlineComment + r);
        AppendAssoc(t.ws2, t.inlineComment, r); }
      (c + d + t.ws1 + t.typ) + r3;
      { AppendAssoc(c + d + t.ws1, t.typ, r3); }
      (c + d + t.ws1) + (t.typ + r3);
      { AppendAssoc(c + d, t.ws1, t.typ + r3); }
      (c + d) + (t.ws1 + (t.typ + r3));
      { AppendAssoc(c, d, t.ws1 + (t.typ + r3)); }
      c + (d + (t.ws1 + (t.typ + r3)));
      { AppendAssoc(d, t.ws1, t.typ + r3);
        AppendAssoc(d + t.ws1, t.typ, r3); }
      c + (d + t.ws1 + t.typ + r3);
    }
  }

  /** `parse_directive`: a dated line that is not a directive is kept as an invalid line. */
  function ParseDirective(s: string): (r: (Entry, string))
    requires s != []
    ensures EntryText(r.0) + r.1 == s && |r.1| < |s|
    ensures ParseDirectiveOpt(s, []).None? ==> r == (InvalidLine(SplitAtNewline(s).0), SplitAtNewline(s).1)
    ensures ParseDirectiveOpt(s, []).Some? ==> r.0.DirectiveEntry? && r.0.directive == ParseDirectiveOpt(s, []).value.0
  {
    match ParseDirectiveOpt(s, [])
    case None =>
      var (line, rest) := SplitAtNewline(s);
      (InvalidLine(line), rest)
    case Some((d, rest)) =>
      (DirectiveEntry(d), rest)
  }

  /**
   * The loop of `parse_comments` from remaining input `r`, with the comment
   * lines read so far: a `;` line (up to and including its `\n`) joins
   * the comments; a digit starts a directive that takes the comments along,
   * unless it does not parse, which ends the block, as does anything else.
   */
  function CommentsSpec(r: string, comments: seq<string>): (res: (Entry, string))
    ensures EntryText(res.0) + res.1 == Concat(comments) + r
    ensures |res.1| <= |r| && (r != [] && r[0] == ';' ==> |res.1| < |r|)
    decreases |r|
  {
    if r != [] && r[0] == ';' then
      var (line, r1) := SplitAtNewline(r);
      ConcatSnoc(comments, line);
      AppendAssoc(Concat(comments), line, r1);
      CommentsSpec(r1, comments + [line])
    else if r != [] && IsDigit(r[0]) then
      match ParseDirectiveOpt(r, comments)
      case Some((d, r1)) => (DirectiveEntry(d), r1)
      case None => (CommentBlock(comments), r)
    else (CommentBlock(comments), r)
  }

  /**
   * `parse_comments`: a run of `;` lines, either attached to the directive
   * right after them or, when none follows, kept as a comment block.
   */
  method ParseComments(s: string) returns (e: Entry, rest: string)
    requires s != [] && s[0] == ';'
    ensures (e, rest) == CommentsSpec(s, [])
    ensures EntryText(e) + rest == s && |rest| < |s|
    ensures e.CommentBlock? || e.DirectiveEntry?
    ensures e.CommentBlock? ==>
      e.comments != [] && (forall k :: 0 <= k < |e.comments| ==> IsCommentLine(e.comments[k]))
      && (rest == [] || !(rest[0] == ';' || (IsDigit(rest[0]) && ParseDirectiveOpt(rest, e.comments).Some?)))
    ensures e.DirectiveEntry? ==>
      !e.directive.CloseDirective? &&
      var pre := if e.directive.OpenDirective? then e.directive.open.preComments
                 else e.directive.transaction.preComments;
      pre != [] && forall k :: 0 <= k < |pre| ==> IsCommentLine(pre[k])
  {
    var comments: seq<string> := [];
    var r := s;
    while r != [] && (r[0] == ';' || IsDigit(r[0]))
      invariant Concat(comments) + r == s
      invariant comments == [] ==> r == s
      invariant forall k :: 0 <= k < |comments| ==> IsCommentLine(comments[k])
      invariant CommentsSpec(r, comments) == CommentsSpec(s, [])
      decreases |r|
    {
      if r[0] == ';' {
        var (line, r1) := SplitAtNewline(r);
        ConcatSnoc(comments, line);
        AppendAssoc(Concat(comments), line, r1);
        comments, r := comments + [line], r1;
      } else {
        match ParseDirectiveOpt(r, comments) {
          case Some((d, r1)) =>
            return DirectiveEntry(d), r1;
          case None =>
            break;
        }
      }
    }
    return CommentBlock(comments), r;
  }

  /** `parse_entry`: one entry from the start of a non-empty input, chosen by its first character. */
  function EntrySpec(s: string): (r: (Entry, string))
    requires s != []
    ensures EntryText(r.0) + r.1 == s && |r.1| < |s|
  {
    if IsIgnoredStart(s[0]) then (IgnoredLine(SplitAtNewline(s).0), SplitAtNewline(s).1)
    else if s[0] == ';' then CommentsSpec(s, [])
    else if IsDigit(s[0]) then ParseDirective(s)
    else (InvalidLine(SplitAtNewline(s).0), SplitAtNewline(s).1)
  }

  /**
   * `parse_entry`, as the source writes it: a line starting with `\n` or
   * one of `*:#!&?%` is ignored, `;` starts comments, a digit a directive,
   * and any other line is invalid.
   */
  method ParseEntry(s: string) returns (e: Entry, rest: string)
    requires s != []
    ensures (e, rest) == EntrySpec(s)
    ensures EntryText(e) + rest == s && |rest| < |s|
    ensures IsIgnoredStart(s[0]) ==> (e, rest) == (IgnoredLine(SplitAtNewline(s).0), SplitAtNewline(s).1)
    ensures s[0] == ';' ==> e.CommentBlock? || e.DirectiveEntry?
    ensures IsDigit(s[0]) ==> (e, rest) == ParseDirective(s)
    ensures !IsIgnoredStart(s[0]) && s[0] != ';' && !IsDigit(s[0]) ==>
      (e, rest) == (InvalidLine(SplitAtNewline(s).0), SplitAtNewline(s).1)
  {
    if IsIgnoredStart(s[0]) {
      var (line, r) := SplitAtNewline(s);
      e, rest := IgnoredLine(line), r;
    } else if s[0] == ';' {
      e, rest := ParseComments(s);
    } else if IsDigit(s[0]) {
      e, rest := ParseDirective(s).0, ParseDirective(s).1;
    } else {
      var (line, r) := SplitAtNewline(s);
      e, rest := InvalidLine(line), r;
    }
  }

  /** The entries of a text: `parse_entry` applied from the front until nothing is left. */
  function RootSpec(content: string): (es: seq<Entry>)
    ensures Concat(EntryTexts(es)) == content
    decreases |content|
  {
    if content == [] then []
    else
      var (e, rest) := EntrySpec(content);
      EntryTextsCons(e, RootSpec(rest));
      [e] + RootSpec(rest)
  }

  lemma EntryTextsCons(e: Entry, es: seq<Entry>)
    ensures Concat(EntryTexts([e] + es)) == EntryText(e) + Concat(EntryTexts(es))
  {
    var t, ts := EntryText(e), EntryTexts(es);
    assert EntryTexts([e] + es) == [t] + ts;
    ConcatAppend([t], ts);
    assert Concat([t]) == t + Concat([]);
  }

  /** One turn of `parse_root`'s loop moves one entry from the rest of the parse to the front. */
  lemma RootSpecStep(entries: seq<Entry>, remaining: string)
    requires remaining != []
    ensures entries + RootSpec(remaining)
      == (entries + [EntrySpec(remaining).0]) + RootSpec(EntrySpec(remaining).1)
    ensures EntryText(EntrySpec(remaining).0) != []
  {
    var (e, rest) := EntrySpec(remaining);
    assert RootSpec(remaining) == [e] + RootSpec(rest);
    assert entries + ([e] + RootSpec(rest)) == (entries + [e]) + RootSpec(rest);
  }

  /** `parse_root`: entries are taken from the front until the input is used up. */
  method ParseRoot(content: string) returns (entries: seq<Entry>)
    ensures entries == RootSpec(content)
    ensures Concat(EntryTexts(entries)) == content
    ensures forall k :: 0 <= k < |entries| ==> EntryText(entries[k]) != []
  {
    entries := [];
    var remaining := content;
    while remaining != []
      invariant forall k :: 0 <= k < |entries| ==> EntryText(entries[k]) != []
      invariant entries + RootSpec(remaining) == RootSpec(content)
      decreases |remaining|
    {
      var entry, tmp := ParseEntry(remaining);
      RootSpecStep(entries, remaining);
      remaining := tmp;
      entries := entries + [entry];
    }
    assert entries + [] == entries;
  }

  /** `File::parse`; it never fails, and writing the file back gives the input. */
  method Parse(filename: string, content: string) returns (f: File)
    ensures f == File(filename, RootSpec(content))
    ensures f.filename == filename
    ensures FileText(f) == content
    ensures f.entries == [] <==> content == []
  {
    var entries := ParseRoot(content);
    f := File(filename, entries);
  }

  // ---------------------------------------------------------------------
  // The parser's test cases
  // ---------------------------------------------------------------------

  lemma ReadWhileIs(s: string, a: string, b: string, f: char -> bool)
    requires MaximalSplit(s, a, b, f)
    ensures ReadWhile(s, f) == (a, b)
  {
    var r := ReadWhile(s, f);
    MaximalSplitUnique(s, r.0, r.1, a, b, f);
  }

  lemma ReadWsIs(s: string, a: string, b: string)
    requires MaximalSplit(s, a, b, IsBlank)
    ensures ReadWs(s) == (a, b)
  {
    var r := ReadWs(s);
    MaximalSplitUnique(s, r.0, r.1, a, b, IsBlank);
  }

  /** `parse_entry` on a `;` line is `parse_comments`. */
  lemma EntrySpecComment(s: string)
    requires s != [] && s[0] == ';'
    ensures EntrySpec(s) == CommentsSpec(s, [])
  {
  }

  /** `parse_entry` keeps a line it cannot use, up to its `\n`, as invalid. */
  lemma EntrySpecInvalid(s: string, line: string, rest: string)
    requires s != [] && !IsIgnoredStart(s[0]) && s[0] != ';'
    requires IsDigit(s[0]) ==> ParseDirectiveOpt(s, []).None?
    requires SplitAtNewline(s) == (line, rest)
    ensures EntrySpec(s) == (InvalidLine(line), rest)
  {
  }

  /** A date, blanks and the keyword `open` hand the rest of the line to the `open` branch. */
  lemma OpenHead(s: string, pre: seq<string>, date: Date, r1: string, ws1: string, r2: string, r3: string)
    requires ReadDate(s) == Some((date, r1)) && ReadWs1(r1) == Some((ws1, r2))
    requires ReadWhile(r2, IsKeywordChar) == ("open", r3)
    ensures s == DateToString(date) + ws1 + "open" + r3
    ensures ParseDirectiveOpt(s, pre) == ParseOpen(s, pre, date, ws1, r3)
  {
    DirectiveHeadConcat(s, date, r1, ws1, r2, "open", r3);
  }

  /** Anything but blanks, a comment or the line end after the account rejects an `open` line. */
  lemma OpenTrailingRejected(s: string, pre: seq<string>, date: Date, ws1: string, r3: string, ws2: string,
                             r4: string, account: string, r5: string)
    requires s == DateToString(date) + ws1 + "open" + r3
    requires ReadWs1(r3) == Some((ws2, r4)) && ReadAccount(r4) == Some((account, r5))
    requires ReadOptInlineComment(r5).None?
    ensures ParseOpen(s, pre, date, ws1, r3).None?
  {
  }

  /** A run of `f` characters, then one that is not, is what `read_while` reads. */
  lemma WordThen(w: string, x: string, f: char -> bool)
    requires (forall k :: 0 <= k < |w| ==> f(w[k])) && x != [] && !f(x[0])
    ensures ReadWhile(w + x, f) == (w, x)
  {
    ReadWhileIs(w + x, w, x, f);
  }

  /** One blank before a non-blank is what `read_ws1` reads. */
  lemma BlankThen(x: string)
    requires x != [] && !IsBlank(x[0])
    ensures ReadWs1(" " + x) == Some((" ", x))
  {
    ReadWsIs(" " + x, " ", x);
  }

  /** A ten-character date followed by a non-digit is read whole. */
  lemma DateThen(date: string, x: string)
    requires |date| == 10 && DateShaped(date) && x != [] && !IsDigit(x[0])
    ensures ReadDate(date + x).Some? && ReadDate(date + x).value.1 == x
  {
    var s := date + x;
    assert s[..4] == date[..4] && s[5..7] == date[5..7] && s[8..10] == date[8..10];
    assert s[4] == date[4] && s[7] == date[7] && s[10] == x[0];
    ShapedDateReads(s);
    assert s[10..] == x;
  }

  /**
   * tests/exp.rs: `2023-01-02 open Assets:Test invalid`, given word by word,
   * is not a directive.
   */
  lemma OpenWithTrailingWordRejected(date: string, kw: string, account: string, word: string)
    requires date == "2023-01-02" && kw == "open" && account == "Assets:Test" && word == "invalid"
    ensures ParseDirectiveOpt(date + " " + kw + " " + account + " " + word, []).None?
  {
    var r5 := " " + word;
    var r4 := account + r5;
    var r3 := " " + r4;
    var r2 := kw + r3;
    var r1 := " " + r2;
    var s := date + " " + kw + " " + account + " " + word;
    assert s == date + r1;
    ExampleDateShaped(date);
    DateThen(date, r1);
    var d := ReadDate(s).value.0;
    ExampleWords(kw, account, word);
    BlankThen(r2);
    WordThen(kw, r3, IsKeywordChar);
    BlankThen(r4);
    WordThen(account, r5, IsAccountChar);
    StrayWord(word);
    OpenHead(s, [], d, r1, " ", r2, r3);
    OpenTrailingRejected(s, [], d, " ", r3, " ", r4, account, r5);
  }

  lemma ExampleDateShaped(date: string)
    requires date == "2023-01-02"
    ensures |date| == 10 && DateShaped(date)
  {
    assert date[0] == '2' && date[1] == '0' && date[2] == '2' && date[3] == '3';
    assert date[4] == '-' && date[7] == '-';
    assert date[5] == '0' && date[6] == '1' && date[8] == '0' && date[9] == '2';
    var y, m, d := date[..4], date[5..7], date[8..10];
    assert y[0] == date[0] && y[1] == date[1] && y[2] == date[2] && y[3] == date[3];
    assert m[0] == date[5] && m[1] == date[6] && d[0] == date[8] && d[1] == date[9];
    DigitsValueTwo(m);
    DigitsValueTwo(d);
    DigitsValueFour(y);
  }

  /** The keyword, the account and the stray word of the example line, character by character. */
  lemma ExampleWords(kw: string, account: string, word: string)
    requires kw == "open" && account == "Assets:Test" && word == "invalid"
    ensures forall k :: 0 <= k < |kw| ==> IsKeywordChar(kw[k])
    ensures forall k :: 0 <= k < |account| ==> IsAccountChar(account[k])
    ensures kw[0] == 'o' && account[0] == 'A' && word[0] == 'i'
  {
  }

  /** A blank and a word that is not a comment cannot end an `open` line. */
  lemma StrayWord(word: string)
    requires word == "invalid"
    ensures ReadOptInlineComment(" " + word).None?
  {
    var r := " " + word;
    assert '\n' !in r;
    assert SplitAtNewline(r) == (r, "");
    assert word[0] == 'i';
    ReadWsIs(r, " ", word);
  }

  /** tests/exp.rs: `2023-01-02 open Assets:Test invalid` is one invalid line. */
  lemma ParsesOpenWithInvalidLastTerm(date: string, kw: string, account: string, word: string)
    requires date == "2023-01-02" && kw == "open" && account == "Assets:Test" && word == "invalid"
    ensures var s := date + " " + kw + " " + account + " " + word;
      RootSpec(s) == [InvalidLine(s)]
  {
    var s := date + " " + kw + " " + account + " " + word;
    OpenWithTrailingWordRejected(date, kw, account, word);
    assert '\n' !in date && '\n' !in kw && '\n' !in account && '\n' !in word;
    assert '\n' !in s;
    assert s[0] == date[0] == '2';
    InvalidSingleLine(s);
  }

  /** A last line without `\n` that is neither ignored, a comment nor a directive is one invalid entry. */
  lemma InvalidSingleLine(line: string)
    requires line != [] && !IsIgnoredStart(line[0]) && line[0] != ';' && '\n' !in line
    requires IsDigit(line[0]) ==> ParseDirectiveOpt(line, []).None?
    ensures RootSpec(line) == [InvalidLine(line)]
  {
    assert line + "" == line;
    InvalidLineThen(line, "");
  }

  /**
   * A line that is neither ignored, a comment nor a directive becomes one
   * invalid entry, and the parse goes on after its `\n`.
   */
  lemma InvalidLineThen(line: string, rest: string)
    requires line != [] && !IsIgnoredStart(line[0]) && line[0] != ';'
    requires IsDigit(line[0]) ==> ParseDirectiveOpt(line + rest, []).None?
    requires '\n' !in line[..|line| - 1] && (rest != [] ==> line[|line| - 1] == '\n')
    ensures RootSpec(line + rest) == [InvalidLine(line)] + RootSpec(rest)
  {
    var s := line + rest;
    if rest == [] {
      assert s == line;
      if '\n' in line {
        SplitFirstLine(line, "");
      }
      assert SplitAtNewline(s) == (line, "");
    } else {
      SplitFirstLine(line, rest);
    }
    EntrySpecInvalid(s, line, rest);
  }

  /** tests/exp.rs: `line1\nline2`, two lines that are neither comments nor directives, is two invalid lines. */
  lemma ParsesTwoUnknownLines(l1: string, l2: string)
    requires l1 == "line1\n" && l2 == "line2"
    ensures RootSpec(l1 + l2) == [InvalidLine(l1), InvalidLine(l2)]
  {
    assert l1[0] == 'l' && l1[5] == '\n' && '\n' !in l1[..5];
    assert l2[0] == 'l' && '\n' !in l2;
    TwoInvalidLines(l1, l2);
  }

  /** A line that is no comment and cannot start a directive. */
  predicate PlainLine(l: string)
  {
    l != [] && !IsIgnoredStart(l[0]) && l[0] != ';' && !IsDigit(l[0]) && '\n' !in l[..|l| - 1]
  }

  /** Two plain lines, the first ended by `\n`, are two invalid lines. */
  lemma TwoInvalidLines(l1: string, l2: string)
    requires PlainLine(l1) && l1[|l1| - 1] == '\n' && PlainLine(l2)
    ensures RootSpec(l1 + l2) == [InvalidLine(l1), InvalidLine(l2)]
  {
    InvalidLineThen(l1, l2);
    assert l2 + "" == l2;
    InvalidLineThen(l2, "");
  }

  /** tests/exp.rs: `;comment1\n;comment2\n`, two comment lines with nothing after them, is one comment block. */
  lemma ParsesComments(l1: string, l2: string)
    requires l1 == ";comment1\n" && l2 == ";comment2\n"
    ensures RootSpec(l1 + l2) == [CommentBlock([l1, l2])]
  {
    assert '\n' !in l1[..|l1| - 1] && '\n' !in l2[..|l2| - 1];
    TwoCommentLines(l1, l2);
  }

  /** A comment line: `;`, then no `\n` until the one that ends it. */
  predicate EndedCommentLine(l: string)
  {
    l != [] && l[0] == ';' && l[|l| - 1] == '\n' && '\n' !in l[..|l| - 1]
  }

  /** Two comment lines with nothing after them form a single comment block. */
  lemma TwoCommentLines(l1: string, l2: string)
    requires EndedCommentLine(l1) && EndedCommentLine(l2)
    ensures RootSpec(l1 + l2) == [CommentBlock([l1, l2])]
  {
    var s := l1 + l2;
    SplitFirstLine(l1, l2);
    assert s[0] == ';';
    CommentsSpecLine(s, [], l1, l2);
    assert [] + [l1] == [l1];
    SecondCommentLine(l1, l2);
    CommentBlockRoot(s, CommentBlock([l1, l2]));
  }

  /** The second of two comment lines closes the block at the end of the input. */
  lemma SecondCommentLine(l1: string, l2: string)
    requires EndedCommentLine(l2)
    ensures CommentsSpec(l2, [l1]) == (CommentBlock([l1, l2]), "")
  {
    SplitFirstLine(l2, "");
    assert l2 + "" == l2;
    CommentsSpecLine(l2, [l1], l2, "");
    assert [l1] + [l2] == [l1, l2];
  }

  /** Comments that take the whole input are its only entry. */
  lemma CommentBlockRoot(s: string, e: Entry)
    requires s != [] && s[0] == ';' && CommentsSpec(s, []) == (e, "")
    ensures RootSpec(s) == [e]
  {
    EntrySpecComment(s);
    RootSpecSingle(s);
  }

  /** A `;` line joins the comments read so far. */
  lemma CommentsSpecLine(r: string, comments: seq<string>, line: string, rest: string)
    requires r != [] && r[0] == ';' && SplitAtNewline(r) == (line, rest)
    ensures CommentsSpec(r, comments) == CommentsSpec(rest, comments + [line])
  {
  }

  /** An input that `parse_entry` consumes whole is one entry. */
  lemma RootSpecSingle(s: string)
    requires s != [] && EntrySpec(s).1 == []
    ensures RootSpec(s) == [EntrySpec(s).0]
  {
    assert RootSpec(s) == [EntrySpec(s).0] + RootSpec("");
  }

  /** A line ending in its only `\n` is split off whole. */
  lemma {:induction false} SplitFirstLine(line: string, rest: string)
    requires line != [] && line[|line| - 1] == '\n' && '\n' !in line[..|line| - 1]
    ensures SplitAtNewline(line + rest) == (line, rest)
    decreases |line|
  {
    var s := line + rest;
    if |line| == 1 {
      assert s[0] == '\n' && s[1..] == rest;
    } else {
      assert line[0] == line[..|line| - 1][0];
      assert s[0] == line[0] && s[0] != '\n';
      var tail := line[1..];
      assert tail[..|tail| - 1] == line[..|line| - 1][1..];
      SplitFirstLine(tail, rest);
      assert s[1..] == tail + rest;
      assert [s[0]] + tail == line;
    }
  }
}
