/**
 * The text rendering of the data model (the `Display` implementations).
 * Sets and metadata are sorted before they are written, so every rendering
 * is a function of the data alone. The rendering of a decimal value is not
 * part of the model: it is the parameter `num`.
 */
module Format {
  import opened Wrappers
  import opened Types
  import opened Text

  /** `quote`: the text between double quotes, with no escaping. */
  function Quote(s: string): (r: string)
    ensures |r| == |s| + 2 && r[0] == '"' && r[|r| - 1] == '"'
    ensures r[1..|r| - 1] == s
  {
    "\"" + s + "\""
  }

  /** An amount: its number, then its currency. */
  function RenderAmount(a: Amount, num: real -> string): (r: string)
    ensures |r| == |num(a.value)| + 1 + |a.currency.name|
  {
    num(a.value) + " " + a.currency.name
  }

  /** An amount is its number, one space, then its currency's name. */
  lemma RenderAmountFields(a: Amount, num: real -> string)
    ensures var n, r := num(a.value), RenderAmount(a, num);
      |r| == |n| + 1 + |a.currency.name| && r[..|n|] == n && r[|n|] == ' ' && r[|n| + 1..] == a.currency.name
  {
  }

  /** A string value is quoted; a currency is its bare name. */
  function RenderValue(v: MetadataValue, num: real -> string): (r: string)
    ensures v.Str? ==> |r| == |v.text| + 2 && r[0] == '"' && r[|r| - 1] == '"' && r[1..|r| - 1] == v.text
    ensures v.CurrencyValue? ==> r == v.currency.name
  {
    match v
    case Str(x) => Quote(x)
    case Number(x) => num(x)
    case CurrencyValue(c) => c.name
  }

  /** One whole line: the indent and the key first, the line end last. */
  function MetadataLine(indent: string, key: string, v: MetadataValue, num: real -> string): (r: string)
    ensures |r| > |indent| + |key| + 2 && indent + key <= r && r[|r| - 1] == '\n'
  {
    indent + key + ": " + RenderValue(v, num) + "\n"
  }

  /** One `key: value` line per entry, in ascending key order. */
  function MetadataLines(m: Metadata, indent: string, num: real -> string): (r: string)
    ensures |m| == 0 <==> r == ""
    ensures EndsLine(r)
  {
    var keys := SortedSet(m.Keys);
    var lines := LinesFor(m, keys, indent, num);
    WholeLinesConcat(lines);
    assert |m| == 0 <==> lines == [] by {
      if |m| != 0 {
        var k :| k in m;
        assert k in keys;
      }
    }
    ConcatFirst(lines);
    Concat(lines)
  }

  /** The text is empty or ends with a line end. */
  predicate EndsLine(s: string)
  {
    s == [] || s[|s| - 1] == '\n'
  }

  /** A list whose first text is not empty concatenates to a text starting with that text's first character. */
  lemma ConcatFirst(ss: seq<string>)
    ensures ss != [] && ss[0] != [] ==> Concat(ss) != [] && Concat(ss)[0] == ss[0][0]
  {
  }

  /** Texts that each end with a line end, one after the other, end with a line end. */
  lemma {:induction false} WholeLinesConcat(ss: seq<string>)
    requires forall k :: 0 <= k < |ss| ==> EndsLine(ss[k])
    ensures EndsLine(Concat(ss))
  {
    if ss != [] {
      WholeLinesConcat(ss[1..]);
      var rest := Concat(ss[1..]);
      if rest != [] {
        assert (ss[0] + rest)[|ss[0] + rest| - 1] == rest[|rest| - 1];
      }
    }
  }

  function LinesFor(m: Metadata, keys: seq<string>, indent: string, num: real -> string): (r: seq<string>)
    requires forall i :: 0 <= i < |keys| ==> keys[i] in m
    ensures |r| == |keys|
    ensures forall i :: 0 <= i < |keys| ==> r[i] == MetadataLine(indent, keys[i], m[keys[i]], num)
  {
    seq(|keys|, i requires 0 <= i < |keys| => MetadataLine(indent, keys[i], m[keys[i]], num))
  }

  /**
   * Metadata lines come out in key order: an entry whose key is greater than
   * every other key is written last, after the lines of the others.
   */
  lemma MetadataLinesAddGreatest(m: Metadata, k: string, v: MetadataValue, indent: string, num: real -> string)
    requires forall x :: x in m ==> StrLt(x, k)
    ensures MetadataLines(m[k := v], indent, num) == MetadataLines(m, indent, num) + MetadataLine(indent, k, v, num)
  {
    LinesAddGreatest(m, k, v, indent, num);
  }

  /**
   * Metadata lines come out in key order: listing the keys in any strictly
   * ascending order and writing one line per key gives the rendering.
   */
  lemma MetadataLinesInKeyOrder(m: Metadata, keys: seq<string>, indent: string, num: real -> string)
    requires StrictlyAscending(keys) && forall x :: x in keys <==> x in m
    ensures forall i :: 0 <= i < |keys| ==> keys[i] in m
    ensures MetadataLines(m, indent, num) == Concat(LinesFor(m, keys, indent, num))
  {
    AscendingUnique(SortedSet(m.Keys), keys);
  }

  lemma LinesAddGreatest(m: Metadata, k: string, v: MetadataValue, indent: string, num: real -> string)
    requires forall x :: x in m ==> StrLt(x, k)
    ensures Concat(LinesFor(m[k := v], SortedSet(m[k := v].Keys), indent, num))
      == Concat(LinesFor(m, SortedSet(m.Keys), indent, num)) + MetadataLine(indent, k, v, num)
  {
    var keys := SortedSet(m.Keys);
    var line := MetadataLine(indent, k, v, num);
    var before := LinesFor(m, keys, indent, num);
    assert LinesFor(m[k := v], SortedSet(m[k := v].Keys), indent, num) == before + [line] by {
      SortedKeysAddGreatest(m, k, v);
      LinesForExtend(m, keys, k, v, indent, num);
    }
    ConcatSnoc(before, line);
  }

  lemma SortedKeysAddGreatest(m: Metadata, k: string, v: MetadataValue)
    requires forall x :: x in m ==> StrLt(x, k)
    ensures SortedSet(m[k := v].Keys) == SortedSet(m.Keys) + [k]
    ensures forall i :: 0 <= i < |SortedSet(m.Keys)| ==> SortedSet(m.Keys)[i] in m && StrLt(SortedSet(m.Keys)[i], k)
  {
    assert m[k := v].Keys == m.Keys + {k};
    SortedSetAddGreatest(m.Keys, k);
    var keys := SortedSet(m.Keys);
    forall i | 0 <= i < |keys| ensures keys[i] in m && StrLt(keys[i], k) {
      assert keys[i] in keys;
    }
  }

  lemma LinesForExtend(m: Metadata, keys: seq<string>, k: string, v: MetadataValue, indent: string, num: real -> string)
    requires forall i :: 0 <= i < |keys| ==> keys[i] in m && StrLt(keys[i], k)
    ensures forall i :: 0 <= i < |keys + [k]| ==> (keys + [k])[i] in m[k := v]
    ensures LinesFor(m[k := v], keys + [k], indent, num) == LinesFor(m, keys, indent, num) + [MetadataLine(indent, k, v, num)]
  {
    forall i | 0 <= i < |keys| ensures m[k := v][keys[i]] == m[keys[i]] {
      StrLtIrreflexive(k);
    }
  }

  /** `*` for a completed or unflagged transaction, `!` for an incomplete one. */
  function FlagText(f: Option<Flag>): (r: string)
    ensures r == (if f == Some(Incomplete) then "!" else "*")
  {
    match f
    case Some(Incomplete) => "!"
    case _ => "*"
  }

  /** ` <mark><x>` for each `x` of `xs`, in that order. */
  function MarkedParts(xs: seq<string>, mark: string): (r: seq<string>)
    ensures |r| == |xs|
    ensures forall i :: 0 <= i < |xs| ==> r[i] == " " + mark + xs[i]
  {
    if xs == [] then [] else [" " + mark + xs[0]] + MarkedParts(xs[1..], mark)
  }

  /** Writing `xs` then `k` is writing `xs`, then ` <mark>k`. */
  lemma {:induction false} MarkedPartsSnoc(xs: seq<string>, mark: string, k: string)
    ensures Concat(MarkedParts(xs + [k], mark)) == Concat(MarkedParts(xs, mark)) + (" " + mark + k)
  {
    if xs == [] {
      assert MarkedParts([k], mark) == [" " + mark + k] + MarkedParts([], mark);
    } else {
      assert (xs + [k])[0] == xs[0] && (xs + [k])[1..] == xs[1..] + [k];
      MarkedPartsSnoc(xs[1..], mark, k);
    }
  }

  /** ` <mark><item>` for each item, in ascending order. */
  function MarkedItems(items: set<string>, mark: string): (r: string)
    ensures items == {} <==> r == ""
    ensures r != "" ==> r[0] == ' '
  {
    var sorted := SortedSet(items);
    var parts := MarkedParts(sorted, mark);
    assert items == {} <==> sorted == [] by {
      if items != {} {
        var x :| x in items;
        assert x in sorted;
      }
    }
    assert parts != [] ==> parts[0] != [] && parts[0][0] == ' ';
    ConcatFirst(parts);
    Concat(parts)
  }

  /**
   * Tags and links come out in ascending order: listing the items in any
   * strictly ascending order and writing ` <mark><item>` for each gives
   * the rendering, one part per item.
   */
  lemma MarkedItemsInOrder(items: set<string>, mark: string, xs: seq<string>)
    requires StrictlyAscending(xs) && forall x :: x in xs <==> x in items
    ensures |xs| == |items|
    ensures MarkedItems(items, mark) == Concat(MarkedParts(xs, mark))
  {
    AscendingUnique(SortedSet(items), xs);
  }

  /** An item greater than every other one is written last. */
  lemma MarkedItemsAddGreatest(items: set<string>, mark: string, k: string)
    requires forall x :: x in items ==> StrLt(x, k)
    ensures MarkedItems(items + {k}, mark) == MarkedItems(items, mark) + (" " + mark + k)
  {
    SortedSetAddGreatest(items, k);
    MarkedPartsSnoc(SortedSet(items), mark, k);
  }

  /** Two items are written lesser first. */
  lemma MarkedItemsPair(x: string, y: string, mark: string)
    requires StrLt(x, y)
    ensures MarkedItems({x, y}, mark) == " " + mark + x + (" " + mark + y)
  {
    var xs := [x, y];
    assert StrictlyAscending(xs);
    MarkedItemsInOrder({x, y}, mark, xs);
    var ps := MarkedParts(xs, mark);
    assert ps[1..] == [" " + mark + y] && ps[1..][1..] == [];
    assert Concat(ps) == ps[0] + Concat(ps[1..]);
  }

  /** Two tags written in either order render the same, the lesser first. */
  lemma MarkedItemsExample()
    ensures MarkedItems({"b", "a"}, "#") == " #a #b"
  {
    assert StrLt("a", "b");
    MarkedItemsPair("a", "b", "#");
    assert {"b", "a"} == {"a", "b"};
  }


  /** The `year-MM-DD ` prefix: month and day in two digits, the year as is. */
  function DatePrefix(date: Date): (r: string)
    ensures var y := IntString(date.year); |r| >= |y| + 7 && y <= r && r[|y|] == '-' && r[|r| - 1] == ' '
  {
    IntString(date.year) + "-" + ZeroPad(date.month, 2) + "-" + ZeroPad(date.day, 2) + " "
  }

  /**
   * The date prefix re-reads: month and day (below 100) occupy exactly two
   * digits each, whose decimal value is the month and the day.
   */
  lemma DatePrefixFields(date: Date)
    requires date.month < 100 && date.day < 100
    ensures var y := IntString(date.year);
      var p := DatePrefix(date);
      |p| == |y| + 7 && p[..|y|] == y && p[|y|] == '-' && p[|y| + 3] == '-' && p[|y| + 6] == ' '
      && AllDigits(p[|y| + 1..|y| + 3]) && DigitsValue(p[|y| + 1..|y| + 3]) == date.month
      && AllDigits(p[|y| + 4..|y| + 6]) && DigitsValue(p[|y| + 4..|y| + 6]) == date.day
  {
    ZeroPadWidth(date.month, 2);
    ZeroPadWidth(date.day, 2);
    ZeroPadValue(date.month, 2);
    ZeroPadValue(date.day, 2);
    var y := IntString(date.year);
    var p := DatePrefix(date);
    assert p[|y| + 1..|y| + 3] == ZeroPad(date.month, 2);
    assert p[|y| + 4..|y| + 6] == ZeroPad(date.day, 2);
  }

  predicate Renderable(d: Directive)
  {
    !d.content.Event?
  }

  /** The first line of a directive after its date (the source panics on an Event). */
  function HeaderLine(d: Directive, num: real -> string): (r: string)
    requires Renderable(d)
    ensures r != [] && r[|r| - 1] == '\n'
  {
    match d.content
    case Balance(a, amount) => "balance " + a.name + " " + RenderAmount(amount, num) + "\n"
    case Close(a) => "close " + a.name + "\n"
    case Commodity(c) => "commodity " + c.name + "\n"
    case Open(a, currencies) => "open " + a.name + " " + Join(SortedSet(CurrencyNames(currencies)), ",") + "\n"
    case Pad(a, source) => "pad " + a.name + " " + source.name + "\n"
    case Price(c, amount) => "price " + c.name + " " + RenderAmount(amount, num) + "\n"
    case Txn(t) =>
      FlagText(t.flag) + NamesText(t) + MarkedItems(t.tags, "#") + MarkedItems(t.links, "^") + "\n"
  }

  /** The names of a set of currencies. */
  function CurrencyNames(cs: set<Currency>): set<string>
  {
    set c | c in cs :: c.name
  }

  /**
   * An Open lists the names of its currencies once each, in ascending
   * order, separated by commas.
   */
  lemma OpenHeader(d: Directive, num: real -> string)
    requires d.content.Open?
    ensures HeaderLine(d, num) == "open " + d.content.account.name + " " + Join(SortedSet(CurrencyNames(d.content.currencies)), ",") + "\n"
    ensures var names := SortedSet(CurrencyNames(d.content.currencies));
      StrictlyAscending(names) && |names| == |d.content.currencies|
      && forall c :: c in d.content.currencies ==> c.name in names
  {
    var a, cs := d.content.account, d.content.currencies;
    assert d.content == Open(a, cs);
    CurrencyNamesCount(cs);
  }

  /** Currencies are told apart by their names, so there are as many names as currencies. */
  lemma {:induction false} CurrencyNamesCount(cs: set<Currency>)
    ensures |CurrencyNames(cs)| == |cs|
    decreases |cs|
  {
    if cs != {} {
      var c :| c in cs;
      CurrencyNamesCount(cs - {c});
      assert CurrencyNames(cs) == CurrencyNames(cs - {c}) + {c.name};
      assert c.name !in CurrencyNames(cs - {c});
    }
  }

  /** Nothing without a price; otherwise ` @ ` for a unit price or ` @@ ` for a total, then the amount. */
  function PriceText(price: Option<PostingPrice>, num: real -> string): (r: string)
    ensures price.None? <==> r == ""
    ensures price.Some? && price.value.Unit? ==> |r| > 3 && r[..3] == " @ " && r[3..] == RenderAmount(price.value.amount, num)
    ensures price.Some? && price.value.Total? ==> |r| > 4 && r[..4] == " @@ " && r[4..] == RenderAmount(price.value.amount, num)
  {
    match price
    case Some(Unit(a)) => " @ " + RenderAmount(a, num)
    case Some(Total(a)) => " @@ " + RenderAmount(a, num)
    case None => ""
  }

  /** A cost is written, between ` {` and `}`, exactly when it has an amount. */
  function CostText(cost: Option<Cost>, num: real -> string): (r: string)
    ensures r == "" <==> !(cost.Some? && cost.value.amount.Some?)
    ensures r != "" ==> |r| > 3 && r[..2] == " {" && r[|r| - 1] == '}' && r[2..|r| - 1] == RenderAmount(cost.value.amount.value, num)
  {
    if cost.Some? && cost.value.amount.Some? then " {" + RenderAmount(cost.value.amount.value, num) + "}" else ""
  }

  /** A posting: account, amount, price, cost, then its metadata indented by four. */
  function RenderPosting(p: Posting, num: real -> string): (r: string)
    ensures |r| > 2 + |p.account.name| && "  " + p.account.name <= r
    ensures r != [] && EndsLine(r)
  {
    var amount := if p.amount.Some? then " " + RenderAmount(p.amount.value, num) else "";
    PostingLines("  " + p.account.name, amount, PriceText(p.price, num), CostText(p.cost, num),
                 MetadataLines(p.metadata, "    ", num));
    "  " + p.account.name + amount + PriceText(p.price, num) + CostText(p.cost, num) + "\n"
    + MetadataLines(p.metadata, "    ", num)
  }

  /** A posting's first line, then whole lines: the account comes first and a line end last. */
  lemma PostingLines(head: string, amount: string, price: string, cost: string, m: string)
    requires EndsLine(m)
    ensures var r := head + amount + price + cost + "\n" + m; |r| > |head| && head <= r && r != [] && EndsLine(r)
  {
    var r := head + amount + price + cost + "\n" + m;
    assert r == head + (amount + price + cost + "\n" + m);
    if m != [] {
      assert r[|r| - 1] == m[|m| - 1];
    } else {
      assert r[|r| - 1] == '\n';
    }
  }

  /** A cost without an amount is written exactly as no cost at all. */
  lemma CostWithoutAmountOmitted(p: Posting, date: Option<Date>, num: real -> string)
    ensures RenderPosting(p.(cost := Some(Cost(None, date))), num) == RenderPosting(p.(cost := None), num)
  {
  }

  /**
   * The price is written before the cost: a posting with both ends its
   * first line with ` @ price {cost}`.
   */
  lemma PriceBeforeCost(p: Posting, unit: Amount, cost: Amount, num: real -> string)
    requires p.price == Some(Unit(unit)) && p.cost.Some? && p.cost.value.amount == Some(cost)
    ensures var line := "  " + p.account.name + (if p.amount.Some? then " " + RenderAmount(p.amount.value, num) else "");
      RenderPosting(p, num)
        == line + " @ " + RenderAmount(unit, num) + " {" + RenderAmount(cost, num) + "}" + "\n"
           + MetadataLines(p.metadata, "    ", num)
  {
  }

  /** The postings one after another, in order. */
  function RenderPostings(ps: seq<Posting>, num: real -> string): (r: string)
    ensures ps == [] <==> r == ""
    ensures EndsLine(r)
  {
    if ps == [] then ""
    else
      var first, rest := RenderPosting(ps[0], num), RenderPostings(ps[1..], num);
      LinesThenLines(first, rest);
      first + rest
  }

  /** Whole lines after whole lines are whole lines. */
  lemma LinesThenLines(a: string, b: string)
    requires a != [] && EndsLine(a) && EndsLine(b)
    ensures a + b != [] && EndsLine(a + b)
  {
    if b != [] {
      assert (a + b)[|a + b| - 1] == b[|b| - 1];
    }
  }

  /** A directive: date, first line, metadata indented by two, then postings. */
  function RenderDirective(d: Directive, num: real -> string): (r: string)
    requires Renderable(d)
    ensures |r| > |DatePrefix(d.date)|
  {
    var postings := if d.content.Txn? then RenderPostings(d.content.transaction.postings, num) else "";
    DatePrefix(d.date) + HeaderLine(d, num) + MetadataLines(d.metadata, "  ", num) + postings
  }

  /** A directive's text starts with its date prefix and is whole lines. */
  lemma RenderDirectiveLines(d: Directive, num: real -> string)
    requires Renderable(d)
    ensures var p, r := DatePrefix(d.date), RenderDirective(d, num); |r| > |p| && p <= r && EndsLine(r)
  {
    var postings := if d.content.Txn? then RenderPostings(d.content.transaction.postings, num) else "";
    DirectiveLines(DatePrefix(d.date), HeaderLine(d, num), MetadataLines(d.metadata, "  ", num), postings);
  }

  /** A prefix, a non-empty line and two runs of whole lines: the prefix comes first and a line end last. */
  lemma DirectiveLines(p: string, line: string, m: string, ps: string)
    requires line != [] && EndsLine(line) && EndsLine(m) && EndsLine(ps)
    ensures var r := p + line + m + ps; |r| > |p| && p <= r && EndsLine(r)
  {
    var r := p + line + m + ps;
    assert r == p + (line + m + ps);
    var tail := line + m + ps;
    assert tail[|tail| - 1] == '\n' by {
      if ps != [] {
        assert tail[|tail| - 1] == ps[|ps| - 1];
      } else if m != [] {
        assert tail == line + m;
        assert tail[|tail| - 1] == m[|m| - 1];
      } else {
        assert tail == line;
      }
    }
  }

  /** A transaction without a flag is written as a completed one. */
  lemma NoFlagRendersCompleted(d: Directive, num: real -> string)
    requires d.content.Txn? && d.content.transaction.flag == None
    ensures var t := d.content.transaction;
      RenderDirective(d, num) == RenderDirective(d.(content := Txn(t.(flag := Some(Completed)))), num)
  {
    var t := d.content.transaction;
    var d2 := d.(content := Txn(t.(flag := Some(Completed))));
    assert FlagText(t.flag) == FlagText(Some(Completed));
    assert HeaderLine(d2, num) == HeaderLine(d, num);
    assert d2.content.transaction.postings == t.postings;
  }

  /**
   * With no escaping, distinct transactions can render alike: a payee that
   * contains `" "` reads back as a payee and a narration.
   */
  lemma QuoteAmbiguous(date: Date, num: real -> string)
    ensures var t1 := Transaction(None, Some("a\" \"b"), None, {}, {}, [], false);
      var t2 := Transaction(None, Some("a"), Some("b"), {}, {}, [], false);
      t1 != t2
      && RenderDirective(Directive(date, Txn(t1), map[]), num) == RenderDirective(Directive(date, Txn(t2), map[]), num)
  {
    var t1 := Transaction(None, Some("a\" \"b"), None, {}, {}, [], false);
    var t2 := Transaction(None, Some("a"), Some("b"), {}, {}, [], false);
    assert t1.payee != t2.payee;
    QuotedPairAmbiguous("a", "b");
    SameNamesSameRendering(Directive(date, Txn(t1), map[]), Directive(date, Txn(t2), map[]), num);
  }

  /** The payee and the narration, each quoted after a space, as they are written on the first line. */
  function NamesText(t: Transaction): (r: string)
    ensures r == "" <==> t.payee.None? && t.narration.None?
  {
    (if t.payee.Some? then " " + Quote(t.payee.value) else "")
    + (if t.narration.Some? then " " + Quote(t.narration.value) else "")
  }

  /** A payee `a" "b` alone is written like a payee `a` and a narration `b`. */
  lemma QuotedPairAmbiguous(x: string, y: string)
    ensures " " + Quote(x + "\" \"" + y) == " " + Quote(x) + " " + Quote(y)
  {
  }

  /** Two transactions that differ only in how payee and narration split the same words render alike. */
  lemma SameNamesSameRendering(d1: Directive, d2: Directive, num: real -> string)
    requires d1.content.Txn? && d2.content.Txn? && d1.date == d2.date && d1.metadata == d2.metadata
    requires var t1, t2 := d1.content.transaction, d2.content.transaction;
      t1.flag == t2.flag && t1.tags == t2.tags && t1.links == t2.links && t1.postings == t2.postings
      && NamesText(t1) == NamesText(t2)
    ensures RenderDirective(d1, num) == RenderDirective(d2, num)
  {
    assert HeaderLine(d1, num) == HeaderLine(d2, num);
  }

  /** The rendering of each directive, in order. */
  function DirectiveTexts(ds: seq<Directive>, num: real -> string): (r: seq<string>)
    requires forall k :: 0 <= k < |ds| ==> Renderable(ds[k])
    ensures |r| == |ds|
  {
    if ds == [] then [] else [RenderDirective(ds[0], num)] + DirectiveTexts(ds[1..], num)
  }

  /** The `k`-th text is the rendering of the `k`-th directive. */
  lemma {:induction false} DirectiveTextsAt(ds: seq<Directive>, num: real -> string, k: nat)
    requires forall k :: 0 <= k < |ds| ==> Renderable(ds[k])
    requires k < |ds|
    ensures DirectiveTexts(ds, num)[k] == RenderDirective(ds[k], num)
  {
    if k > 0 {
      DirectiveTextsAt(ds[1..], num, k - 1);
      assert ds[1..][k - 1] == ds[k];
    }
  }

  /** Every directive's text is whole lines, and the first one is not empty. */
  lemma DirectiveTextsLines(ds: seq<Directive>, num: real -> string, texts: seq<string>)
    requires forall k :: 0 <= k < |ds| ==> Renderable(ds[k])
    requires texts == DirectiveTexts(ds, num)
    ensures forall k :: 0 <= k < |texts| ==> EndsLine(texts[k])
    ensures ds != [] ==> texts[0] != []
  {
    forall k | 0 <= k < |texts| ensures EndsLine(texts[k]) {
      DirectiveTextsAt(ds, num, k);
      RenderDirectiveLines(ds[k], num);
    }
    if ds != [] {
      RenderDirectiveLines(ds[0], num);
    }
  }

  /** The rendering of a file: its directives one after the other. */
  function RenderFile(ds: seq<Directive>, num: real -> string): (r: string)
    requires forall k :: 0 <= k < |ds| ==> Renderable(ds[k])
    ensures ds == [] <==> r == ""
    ensures EndsLine(r)
  {
    var texts := DirectiveTexts(ds, num);
    DirectiveTextsLines(ds, num, texts);
    WholeLinesConcat(texts);
    ConcatFirst(texts);
    Concat(texts)
  }

  /** Rendering distributes over concatenation of directive lists. */
  lemma RenderFileAppend(a: seq<Directive>, b: seq<Directive>, num: real -> string)
    requires forall k :: 0 <= k < |a| ==> Renderable(a[k])
    requires forall k :: 0 <= k < |b| ==> Renderable(b[k])
    ensures forall k :: 0 <= k < |a + b| ==> Renderable((a + b)[k])
    ensures RenderFile(a + b, num) == RenderFile(a, num) + RenderFile(b, num)
  {
    DirectiveTextsAppend(a, b, num);
    ConcatAppend(DirectiveTexts(a, num), DirectiveTexts(b, num));
  }

  lemma ConsAppend<T>(x: T, s: seq<T>, t: seq<T>)
    ensures [x] + (s + t) == ([x] + s) + t
  {
  }

  /** The renderings of two directive lists, one after the other. */
  lemma {:induction false} DirectiveTextsAppend(a: seq<Directive>, b: seq<Directive>, num: real -> string)
    requires forall k :: 0 <= k < |a| ==> Renderable(a[k])
    requires forall k :: 0 <= k < |b| ==> Renderable(b[k])
    ensures forall k :: 0 <= k < |a + b| ==> Renderable((a + b)[k])
    ensures DirectiveTexts(a + b, num) == DirectiveTexts(a, num) + DirectiveTexts(b, num)
  {
    forall k | 0 <= k < |a + b| ensures Renderable((a + b)[k]) {
      if k < |a| {
        assert (a + b)[k] == a[k];
      } else {
        assert (a + b)[k] == b[k - |a|];
      }
    }
    if a == [] {
      assert a + b == b;
    } else {
      assert (a + b)[0] == a[0];
      assert (a + b)[1..] == a[1..] + b;
      DirectiveTextsAppend(a[1..], b, num);
      var x, ta, tb := RenderDirective(a[0], num), DirectiveTexts(a[1..], num), DirectiveTexts(b, num);
      assert DirectiveTexts(a + b, num) == [x] + DirectiveTexts(a[1..] + b, num);
      assert DirectiveTexts(a, num) == [x] + ta;
      ConsAppend(x, ta, tb);
    }
  }

  /** `Display` for a file held by a `BeancountFile`. */
  function RenderBeancountFile(file: BeancountFile, num: real -> string): (r: string)
    reads file
    requires forall k :: 0 <= k < |file.directives| ==> Renderable(file.directives[k])
    ensures r == RenderFile(file.directives, num)
    ensures file.directives == [] <==> r == ""
  {
    RenderFile(file.directives, num)
  }
}
