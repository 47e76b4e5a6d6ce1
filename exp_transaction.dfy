/**
 * The transaction-header parser of the lossless parser: a state machine over
 * lexer tokens that fills in payee, narration, tags and links, keeping the
 * whitespace before each of them and the line's trailing whitespace, inline
 * comment and end of line, so that the header can be written back.
 *
 * The lexer is a sequence of tokens consumed from the front; once it is
 * used up it keeps answering an empty end-of-line token.
 */
module ExpTransaction {
  import opened Wrappers
  import opened Text
  import ExpScan

  // ---------------------------------------------------------------------
  // Tokens and the lexer
  // ---------------------------------------------------------------------

  /** The lexer's tokens the header parser tells apart; `Other` is any further kind. */
  datatype Token =
    | Eol(text: string)
    | Whitespace(text: string)
    | Comment(text: string)
    | StringLit(text: string)
    | Tag(text: string)
    | Link(text: string)
    | Other(text: string)

  function Head(ts: seq<Token>): Token
  {
    if ts == [] then Eol("") else ts[0]
  }

  function Rest(ts: seq<Token>): (r: seq<Token>)
    ensures |r| == if ts == [] then 0 else |ts| - 1
  {
    if ts == [] then [] else ts[1..]
  }

  /** The source text the tokens were read from. */
  function TokensText(ts: seq<Token>): string
  {
    if ts == [] then "" else ts[0].text + TokensText(ts[1..])
  }

  lemma TokensTextHead(ts: seq<Token>)
    ensures TokensText(ts) == Head(ts).text + TokensText(Rest(ts))
  {
  }

  lemma TokensTextCons(t: Token, ts: seq<Token>)
    ensures TokensText([t] + ts) == t.text + TokensText(ts)
  {
    assert ([t] + ts)[1..] == ts;
  }

  class Lexer {
    var tokens: seq<Token>

    constructor (ts: seq<Token>)
      ensures tokens == ts
    {
      tokens := ts;
    }

    /** `read_token`: the next token, or an empty end of line once exhausted. */
    method ReadToken() returns (t: Token)
      modifies this
      ensures t == Head(old(tokens)) && tokens == Rest(old(tokens))
    {
      if tokens == [] {
        t := Eol("");
      } else {
        t, tokens := tokens[0], tokens[1..];
      }
    }
  }

  // ---------------------------------------------------------------------
  // The header and its text
  // ---------------------------------------------------------------------

  /** A value together with the whitespace written before it. */
  datatype WithWs<T> = WithWs(preWs: string, v: T)

  datatype TagOrLink = TagItem(tag: string) | LinkItem(link: string)

  function ItemText(x: TagOrLink): string
  {
    match x
    case TagItem(s) => s
    case LinkItem(s) => s
  }

  /** `date ws (txn|*) [[ws payee] ws narration] (ws tag|link)* ws_last [inline_comment] eol`. */
  datatype Transaction = Transaction(
    preComments: seq<string>,
    date: ExpScan.Date,
    typ: WithWs<string>,
    payee: Option<WithWs<string>>,
    narration: Option<WithWs<string>>,
    tagsAndLinks: seq<WithWs<TagOrLink>>,
    wsLast: string,
    inlineComment: string,
    eol: string)

  /** The header as it stands before the first token after the type is read. */
  function Initial(preComments: seq<string>, date: ExpScan.Date, typ: WithWs<string>): (t: Transaction)
    ensures t.preComments == preComments && t.date == date && t.typ == typ
    ensures t.payee.None? && t.narration.None? && t.tagsAndLinks == []
    ensures t.wsLast == "" && t.inlineComment == "" && t.eol == ""
  {
    Transaction(preComments, date, typ, None, None, [], "", "", "")
  }

  function OptText(o: Option<WithWs<string>>): string
  {
    match o
    case None => ""
    case Some(w) => w.preWs + w.v
  }

  function TagsText(xs: seq<WithWs<TagOrLink>>): string
  {
    if xs == [] then "" else TagsText(xs[..|xs| - 1]) + xs[|xs| - 1].preWs + ItemText(xs[|xs| - 1].v)
  }

  /** Everything up to the last tag or link. */
  function Body(t: Transaction): string
  {
    Concat(t.preComments) + ExpScan.DateToString(t.date) + t.typ.preWs + t.typ.v
      + OptText(t.payee) + OptText(t.narration) + TagsText(t.tagsAndLinks)
  }

  /** `Transaction::to_string`. */
  function TransactionText(t: Transaction): (r: string)
    ensures Concat(t.preComments) <= r
    ensures |r| >= |t.eol| && r[|r| - |t.eol|..] == t.eol
  {
    Body(t) + t.wsLast + t.inlineComment + t.eol
  }

  /** The loop of `to_string` that writes each tag or link after its whitespace. */
  method AppendTags(start: string, xs: seq<WithWs<TagOrLink>>) returns (ret: string)
    ensures ret == start + TagsText(xs)
  {
    ret := start;
    for i := 0 to |xs|
      invariant ret == start + TagsText(xs[..i])
    {
      var x := xs[i];
      assert xs[..i + 1][..i] == xs[..i];
      ExpScan.AppendAssoc(start, TagsText(xs[..i]), x.preWs);
      ExpScan.AppendAssoc(start, TagsText(xs[..i]) + x.preWs, ItemText(x.v));
      ret := ret + x.preWs + ItemText(x.v);
    }
    assert xs[..|xs|] == xs;
  }

  /** `to_string`, building the text piece by piece as the source does. */
  method ToString(t: Transaction) returns (ret: string)
    ensures ret == TransactionText(t)
  {
    ret := Concat(t.preComments) + ExpScan.DateToString(t.date) + t.typ.preWs + t.typ.v;
    ghost var prefix := ret;
    if t.payee.Some? {
      ret := ret + (t.payee.value.preWs + t.payee.value.v);
    } else {
      assert ret == prefix + "";
    }
    ghost var withPayee := ret;
    assert withPayee == prefix + OptText(t.payee);
    if t.narration.Some? {
      ret := ret + (t.narration.value.preWs + t.narration.value.v);
    } else {
      assert ret == withPayee + "";
    }
    assert ret == prefix + OptText(t.payee) + OptText(t.narration);
    ret := AppendTags(ret, t.tagsAndLinks);
    ret := ret + t.wsLast;
    ret := ret + t.inlineComment;
    ret := ret + t.eol;
  }

  // ---------------------------------------------------------------------
  // The state machine
  // ---------------------------------------------------------------------

  /** What a parse gives: the header, if any, and the tokens left in the lexer. */
  datatype Outcome = Outcome(result: Option<Transaction>, rest: seq<Token>)

  /**
   * What no state changes: the comments, the date and the type stay as they
   * are, and tags and links are only ever appended.
   */
  predicate KeepsFixed(o: Outcome, t: Transaction)
  {
    o.result.Some? ==>
      var u := o.result.value;
      u.preComments == t.preComments && u.date == t.date && u.typ == t.typ && t.tagsAndLinks <= u.tagsAndLinks
  }

  /**
   * The states of `parse_transaction`, one function each, named after what
   * has been read. `keep` selects what happens to the whitespace between a
   * tag or link and a trailing comment: the source drops it (`keep` false);
   * with `keep` true it is stored in `ws_last`, as in every other state.
   */
  function HeaderSpec(ts: seq<Token>, t: Transaction, keep: bool): (r: Outcome)
    ensures KeepsFixed(r, t) && |r.rest| <= |ts|
  {
    match Head(ts)
    case Eol(eol) => Outcome(Some(t.(eol := eol)), Rest(ts))
    case Whitespace(ws1) => AfterFirstWs(Rest(ts), t, ws1, keep)
    case Comment(c) => CommentSpec(Rest(ts), t, c)
    case _ => Outcome(None, Rest(ts))
  }

  /** After `ws1`: a string, a tag or link, or the end. */
  function AfterFirstWs(ts: seq<Token>, t: Transaction, ws1: string, keep: bool): (r: Outcome)
    ensures KeepsFixed(r, t) && |r.rest| <= |ts|
  {
    match Head(ts)
    case StringLit(s1) => AfterFirstString(Rest(ts), t, ws1, s1, keep)
    case Eol(eol) => Outcome(Some(t.(wsLast := ws1, eol := eol)), Rest(ts))
    case Comment(c) => CommentSpec(Rest(ts), t.(wsLast := ws1), c)
    case Tag(x) => TagsSpec(Rest(ts), t.(tagsAndLinks := t.tagsAndLinks + [WithWs(ws1, TagItem(x))]), keep)
    case Link(x) => TagsSpec(Rest(ts), t.(tagsAndLinks := t.tagsAndLinks + [WithWs(ws1, LinkItem(x))]), keep)
    case _ => Outcome(None, Rest(ts))
  }

  /** After one string `s1`: it is the narration unless a second string follows. */
  function AfterFirstString(ts: seq<Token>, t: Transaction, ws1: string, s1: string, keep: bool): (r: Outcome)
    ensures KeepsFixed(r, t) && |r.rest| <= |ts|
  {
    match Head(ts)
    case Whitespace(ws2) => AfterSecondWs(Rest(ts), t, ws1, s1, ws2, keep)
    case Eol(eol) => Outcome(Some(t.(narration := Some(WithWs(ws1, s1)), eol := eol)), Rest(ts))
    case Comment(c) => CommentSpec(Rest(ts), t.(narration := Some(WithWs(ws1, s1))), c)
    case _ => Outcome(None, Rest(ts))
  }

  /** After `s1` and `ws2`. */
  function AfterSecondWs(ts: seq<Token>, t: Transaction, ws1: string, s1: string, ws2: string, keep: bool): (r: Outcome)
    ensures KeepsFixed(r, t) && |r.rest| <= |ts|
  {
    var n := t.(narration := Some(WithWs(ws1, s1)));
    match Head(ts)
    case StringLit(s2) =>
      AfterPayeeNarration(Rest(ts), t.(payee := Some(WithWs(ws1, s1)), narration := Some(WithWs(ws2, s2))), keep)
    case Eol(eol) => Outcome(Some(n.(wsLast := ws2, eol := eol)), Rest(ts))
    case Comment(c) => CommentSpec(Rest(ts), n.(wsLast := ws2), c)
    case Tag(x) => TagsSpec(Rest(ts), n.(tagsAndLinks := n.tagsAndLinks + [WithWs(ws2, TagItem(x))]), keep)
    case Link(x) => TagsSpec(Rest(ts), n.(tagsAndLinks := n.tagsAndLinks + [WithWs(ws2, LinkItem(x))]), keep)
    case _ => Outcome(None, Rest(ts))
  }

  /** After payee and narration. */
  function AfterPayeeNarration(ts: seq<Token>, t: Transaction, keep: bool): (r: Outcome)
    ensures KeepsFixed(r, t) && |r.rest| <= |ts|
  {
    match Head(ts)
    case Whitespace(ws3) => AfterThirdWs(Rest(ts), t, ws3, keep)
    case Eol(eol) => Outcome(Some(t.(eol := eol)), Rest(ts))
    case Comment(c) => CommentSpec(Rest(ts), t, c)
    case _ => Outcome(None, Rest(ts))
  }

  /** After payee, narration and `ws3`. */
  function AfterThirdWs(ts: seq<Token>, t: Transaction, ws3: string, keep: bool): (r: Outcome)
    ensures KeepsFixed(r, t) && |r.rest| <= |ts|
  {
    match Head(ts)
    case Eol(eol) => Outcome(Some(t.(wsLast := ws3, eol := eol)), Rest(ts))
    case Comment(c) => CommentSpec(Rest(ts), t.(wsLast := ws3), c)
    case Tag(x) => TagsSpec(Rest(ts), t.(tagsAndLinks := t.tagsAndLinks + [WithWs(ws3, TagItem(x))]), keep)
    case Link(x) => TagsSpec(Rest(ts), t.(tagsAndLinks := t.tagsAndLinks + [WithWs(ws3, LinkItem(x))]), keep)
    case _ => Outcome(None, Rest(ts))
  }

  /** `parse_transaction_tags_and_links`: pairs of whitespace and tag or link. */
  function TagsSpec(ts: seq<Token>, t: Transaction, keep: bool): (r: Outcome)
    ensures KeepsFixed(r, t) && |r.rest| <= |ts|
    decreases |ts|
  {
    match Head(ts)
    case Whitespace(ws) =>
      var ts1 := Rest(ts);
      (match Head(ts1)
       case Eol(eol) => Outcome(Some(t.(wsLast := ws, eol := eol)), Rest(ts1))
       case Tag(x) => TagsSpec(Rest(ts1), t.(tagsAndLinks := t.tagsAndLinks + [WithWs(ws, TagItem(x))]), keep)
       case Link(x) => TagsSpec(Rest(ts1), t.(tagsAndLinks := t.tagsAndLinks + [WithWs(ws, LinkItem(x))]), keep)
       case Comment(c) => CommentSpec(Rest(ts1), if keep then t.(wsLast := ws) else t, c)
       case _ => Outcome(None, Rest(ts1)))
    case Eol(eol) => Outcome(Some(t.(eol := eol)), Rest(ts))
    case Comment(c) => CommentSpec(Rest(ts), t, c)
    case _ => Outcome(None, Rest(ts))
  }

  /** `parse_transaction_comment`: the comment must end the line. */
  function CommentSpec(ts: seq<Token>, t: Transaction, c: string): (r: Outcome)
    ensures KeepsFixed(r, t) && |r.rest| <= |ts|
    ensures r.result.Some? ==> r.result.value.inlineComment == c && r.result.value.tagsAndLinks == t.tagsAndLinks
  {
    match Head(ts)
    case Eol(eol) => Outcome(Some(t.(inlineComment := c, eol := eol)), Rest(ts))
    case _ => Outcome(None, Rest(ts))
  }

  // ---------------------------------------------------------------------
  // The source's imperative parser, proved against the states above
  // ---------------------------------------------------------------------

  /** `parse_transaction_comment`. */
  method ParseTransactionComment(lexer: Lexer, t: Transaction, comment: string) returns (r: Option<Transaction>)
    modifies lexer
    ensures Outcome(r, lexer.tokens) == CommentSpec(old(lexer.tokens), t, comment)
  {
    var t' := t.(inlineComment := comment);
    var tok := lexer.ReadToken();
    if !tok.Eol? {
      return None;
    }
    t' := t'.(eol := tok.text);
    return Some(t');
  }

  /** `parse_transaction_tags_and_links`: its loop, as written. */
  method ParseTransactionTagsAndLinks(lexer: Lexer, t: Transaction) returns (r: Option<Transaction>)
    modifies lexer
    ensures Outcome(r, lexer.tokens) == TagsSpec(old(lexer.tokens), t, false)
  {
    var t' := t;
    while true
      invariant TagsSpec(lexer.tokens, t', false) == TagsSpec(old(lexer.tokens), t, false)
      decreases |lexer.tokens|
    {
      ghost var ts := lexer.tokens;
      var tok := lexer.ReadToken();
      var ws;
      match tok {
        case Whitespace(w) =>
          ws := w;
        case Eol(eol) =>
          t' := t'.(eol := eol);
          return Some(t');
        case Comment(c) =>
          r := ParseTransactionComment(lexer, t', c);
          return;
        case _ =>
          return None;
      }
      tok := lexer.ReadToken();
      match tok {
        case Eol(eol) =>
          t' := t'.(wsLast := ws, eol := eol);
          return Some(t');
        case Tag(x) =>
          t' := t'.(tagsAndLinks := t'.tagsAndLinks + [WithWs(ws, TagItem(x))]);
        case Link(x) =>
          t' := t'.(tagsAndLinks := t'.tagsAndLinks + [WithWs(ws, LinkItem(x))]);
        case Comment(c) =>
          r := ParseTransactionComment(lexer, t', c);
          return;
        case _ =>
          return None;
      }
    }
  }

  /**
   * `parse_transaction`: reads the rest of a header line after the date and
   * the type, and returns `None` on any token the current state does not
   * expect.
   */
  method ParseTransaction(lexer: Lexer, preComments: seq<string>, date: ExpScan.Date, typ: WithWs<string>)
    returns (r: Option<Transaction>)
    modifies lexer
    ensures Outcome(r, lexer.tokens) == HeaderSpec(old(lexer.tokens), Initial(preComments, date, typ), false)
  {
    var t := Initial(preComments, date, typ);
    var tok := lexer.ReadToken();
    var ws1;
    match tok {
      case Eol(eol) =>
        return Some(t.(eol := eol));
      case Whitespace(ws) =>
        ws1 := ws;
      case Comment(c) =>
        r := ParseTransactionComment(lexer, t, c);
        return;
      case _ =>
        return None;
    }
    r := ParseAfterFirstWs(lexer, t, ws1);
  }

  /** The part of `parse_transaction` after `ws1`, up to the payee and narration. */
  method ParseAfterFirstWs(lexer: Lexer, t: Transaction, ws1: string) returns (r: Option<Transaction>)
    modifies lexer
    ensures Outcome(r, lexer.tokens) == AfterFirstWs(old(lexer.tokens), t, ws1, false)
  {
    var t' := t;
    var tok := lexer.ReadToken();
    var s1;
    match tok {
      case StringLit(s) =>
        s1 := s;
      case Eol(eol) =>
        return Some(t'.(wsLast := ws1, eol := eol));
      case Comment(c) =>
        r := ParseTransactionComment(lexer, t'.(wsLast := ws1), c);
        return;
      case Tag(x) =>
        t' := t'.(tagsAndLinks := t'.tagsAndLinks + [WithWs(ws1, TagItem(x))]);
        r := ParseTransactionTagsAndLinks(lexer, t');
        return;
      case Link(x) =>
        t' := t'.(tagsAndLinks := t'.tagsAndLinks + [WithWs(ws1, LinkItem(x))]);
        r := ParseTransactionTagsAndLinks(lexer, t');
        return;
      case _ =>
        return None;
    }
    tok := lexer.ReadToken();
    var ws2;
    match tok {
      case Whitespace(ws) =>
        ws2 := ws;
      case Eol(eol) =>
        return Some(t'.(narration := Some(WithWs(ws1, s1)), eol := eol));
      case Comment(c) =>
        r := ParseTransactionComment(lexer, t'.(narration := Some(WithWs(ws1, s1))), c);
        return;
      case _ =>
        return None;
    }
    r := ParseAfterSecondWs(lexer, t', ws1, s1, ws2);
  }

  /** The part of `parse_transaction` after `s1` and `ws2`. */
  method ParseAfterSecondWs(lexer: Lexer, t: Transaction, ws1: string, s1: string, ws2: string)
    returns (r: Option<Transaction>)
    modifies lexer
    ensures Outcome(r, lexer.tokens) == AfterSecondWs(old(lexer.tokens), t, ws1, s1, ws2, false)
  {
    var t' := t;
    var tok := lexer.ReadToken();
    var s2;
    match tok {
      case StringLit(s) =>
        s2 := s;
      case Eol(eol) =>
        return Some(t'.(narration := Some(WithWs(ws1, s1)), wsLast := ws2, eol := eol));
      case Comment(c) =>
        r := ParseTransactionComment(lexer, t'.(narration := Some(WithWs(ws1, s1)), wsLast := ws2), c);
        return;
      case Tag(x) =>
        t' := t'.(narration := Some(WithWs(ws1, s1)));
        t' := t'.(tagsAndLinks := t'.tagsAndLinks + [WithWs(ws2, TagItem(x))]);
        r := ParseTransactionTagsAndLinks(lexer, t');
        return;
      case Link(x) =>
        t' := t'.(narration := Some(WithWs(ws1, s1)));
        t' := t'.(tagsAndLinks := t'.tagsAndLinks + [WithWs(ws2, LinkItem(x))]);
        r := ParseTransactionTagsAndLinks(lexer, t');
        return;
      case _ =>
        return None;
    }
    t' := t'.(payee := Some(WithWs(ws1, s1)), narration := Some(WithWs(ws2, s2)));
    tok := lexer.ReadToken();
    var ws3;
    match tok {
      case Whitespace(ws) =>
        ws3 := ws;
      case Eol(eol) =>
        return Some(t'.(eol := eol));
      case Comment(c) =>
        r := ParseTransactionComment(lexer, t', c);
        return;
      case _ =>
        return None;
    }
    tok := lexer.ReadToken();
    match tok {
      case Eol(eol) =>
        r := Some(t'.(wsLast := ws3, eol := eol));
      case Comment(c) =>
        r := ParseTransactionComment(lexer, t'.(wsLast := ws3), c);
      case Tag(x) =>
        t' := t'.(tagsAndLinks := t'.tagsAndLinks + [WithWs(ws3, TagItem(x))]);
        r := ParseTransactionTagsAndLinks(lexer, t');
      case Link(x) =>
        t' := t'.(tagsAndLinks := t'.tagsAndLinks + [WithWs(ws3, LinkItem(x))]);
        r := ParseTransactionTagsAndLinks(lexer, t');
      case _ =>
        r := None;
    }
  }

  // ---------------------------------------------------------------------
  // What the parser promises
  // ---------------------------------------------------------------------

  /** The tags and links in a token list: each whitespace token directly followed by a tag or link. */
  function TagPairs(ts: seq<Token>): seq<WithWs<TagOrLink>>
    decreases |ts|
  {
    if |ts| < 2 then []
    else if ts[0].Whitespace? && ts[1].Tag? then [WithWs(ts[0].text, TagItem(ts[1].text))] + TagPairs(ts[2..])
    else if ts[0].Whitespace? && ts[1].Link? then [WithWs(ts[0].text, LinkItem(ts[1].text))] + TagPairs(ts[2..])
    else TagPairs(ts[1..])
  }

  lemma TagPairsSkip(ts: seq<Token>)
    requires !Head(ts).Whitespace?
    ensures TagPairs(ts) == TagPairs(Rest(ts))
  {
  }

  lemma TagPairsAfterWs(w: string, ts: seq<Token>)
    requires !Head(ts).Tag? && !Head(ts).Link?
    ensures TagPairs([Whitespace(w)] + ts) == TagPairs(ts)
  {
    var ws := [Whitespace(w)] + ts;
    assert ws[1..] == ts;
    if ts != [] {
      assert ws[0].Whitespace? && !ws[1].Tag? && !ws[1].Link?;
    }
  }

  lemma TagPairsItem(w: string, ts: seq<Token>)
    requires Head(ts).Tag? || Head(ts).Link?
    ensures TagPairs([Whitespace(w)] + ts)
      == [WithWs(w, if Head(ts).Tag? then TagItem(Head(ts).text) else LinkItem(Head(ts).text))] + TagPairs(Rest(ts))
  {
    var ws := [Whitespace(w)] + ts;
    assert ws[2..] == ts[1..];
  }

  /** `rest` is what is left of `ts` after some tokens were read from its front. */
  predicate IsSuffix(rest: seq<Token>, ts: seq<Token>)
  {
    |rest| <= |ts| && ts[|ts| - |rest|..] == rest
  }

  lemma SuffixOfRest(rest: seq<Token>, ts: seq<Token>)
    requires IsSuffix(rest, Rest(ts))
    ensures IsSuffix(rest, ts)
  {
    if ts != [] {
      assert ts[|ts| - |rest|..] == ts[1..][|ts| - 1 - |rest|..];
    }
  }

  lemma TokensTextAfter(w: string, ts: seq<Token>)
    ensures TokensText([Whitespace(w)] + ts) == w + TokensText(ts)
  {
    TokensTextCons(Whitespace(w), ts);
  }

  /** A header still open at its end: no trailing whitespace, comment or end of line yet. */
  predicate Unfinished(t: Transaction)
  {
    t.wsLast == "" && t.inlineComment == "" && t.eol == ""
  }

  /** Appending a tag or link adds its whitespace and text at the end of the body. */
  lemma BodyAddItem(t: Transaction, x: WithWs<TagOrLink>)
    ensures Body(t.(tagsAndLinks := t.tagsAndLinks + [x])) == Body(t) + x.preWs + ItemText(x.v)
  {
    var xs := t.tagsAndLinks + [x];
    assert xs[..|xs| - 1] == t.tagsAndLinks;
    var p := Concat(t.preComments) + ExpScan.DateToString(t.date) + t.typ.preWs + t.typ.v
      + OptText(t.payee) + OptText(t.narration);
    ExpScan.AppendAssoc(p, TagsText(t.tagsAndLinks), x.preWs);
    ExpScan.AppendAssoc(p, TagsText(t.tagsAndLinks) + x.preWs, ItemText(x.v));
  }

  /** The text of a finished header, followed by what is left. */
  lemma FinishedText(t: Transaction, w: string, c: string, e: string, rest: seq<Token>)
    ensures TransactionText(t.(wsLast := w, inlineComment := c, eol := e)) + TokensText(rest)
      == Body(t) + w + c + (e + TokensText(rest))
  {
    ExpScan.AppendAssoc(Body(t) + w + c, e, TokensText(rest));
  }

  /**
   * `parse_transaction_comment` reads only an end of line after the comment;
   * the comment and the end of line are written after the header's text.
   */
  lemma {:induction false} CommentSpecProps(ts: seq<Token>, t: Transaction, c: string)
    requires t.inlineComment == "" && t.eol == ""
    ensures var o := CommentSpec(ts, t, c);
      && (o.result.Some? <==> Head(ts).Eol?)
      && (o.result.Some? ==>
            && IsSuffix(o.rest, ts)
            && o.result.value.tagsAndLinks + TagPairs(o.rest) == t.tagsAndLinks + TagPairs(ts)
            && TransactionText(o.result.value) + TokensText(o.rest) == Body(t) + t.wsLast + c + TokensText(ts))
  {
    var o := CommentSpec(ts, t, c);
    if Head(ts).Eol? {
      TokensTextHead(ts);
      TagPairsSkip(ts);
      SuffixOfRest(o.rest, ts);
      FinishedText(t, t.wsLast, c, Head(ts).text, o.rest);
    }
  }

  /**
   * `parse_transaction_tags_and_links`: the tags and links it appends are
   * the whitespace-and-item pairs it reads, in order.
   */
  lemma {:induction false} TagsSpecPairs(ts: seq<Token>, t: Transaction, keep: bool)
    requires Unfinished(t)
    decreases |ts|, 1
    ensures var o := TagsSpec(ts, t, keep);
      o.result.Some? ==>
        && IsSuffix(o.rest, ts)
        && o.result.value.tagsAndLinks + TagPairs(o.rest) == t.tagsAndLinks + TagPairs(ts)
  {
    match Head(ts)
    case Whitespace(_) => TagsPairsAfterWs(ts, t, keep);
    case Eol(_) => EolEnd(ts, t);
    case Comment(_) => CommentEnd(ts, t);
    case _ =>
  }

  /** The whitespace-then-item step of `TagsSpecPairs`. */
  lemma {:induction false} TagsPairsAfterWs(ts: seq<Token>, t: Transaction, keep: bool)
    requires Unfinished(t) && Head(ts).Whitespace?
    decreases |ts|, 0
    ensures var o := TagsSpec(ts, t, keep);
      o.result.Some? ==>
        && IsSuffix(o.rest, ts)
        && o.result.value.tagsAndLinks + TagPairs(o.rest) == t.tagsAndLinks + TagPairs(ts)
  {
    var o := TagsSpec(ts, t, keep);
    var ws := Head(ts).text;
    var ts1 := Rest(ts);
    assert ts == [Whitespace(ws)] + ts1;
    if Head(ts1).Tag? || Head(ts1).Link? {
      var item := ItemOf(ws, Head(ts1));
      var t' := t.(tagsAndLinks := t.tagsAndLinks + [item]);
      assert o == TagsSpec(Rest(ts1), t', keep);
      TagsSpecPairs(Rest(ts1), t', keep);
      TagPairsItem(ws, ts1);
      assert (t.tagsAndLinks + [item]) + TagPairs(Rest(ts1)) == t.tagsAndLinks + ([item] + TagPairs(Rest(ts1)));
      if o.result.Some? {
        SuffixOfRest(o.rest, ts1);
        SuffixOfRest(o.rest, ts);
      }
    } else {
      TagsPairsWsEnd(ts, t, keep);
    }
  }

  /** `TagsPairsAfterWs` when the whitespace is followed by no tag or link. */
  lemma TagsPairsWsEnd(ts: seq<Token>, t: Transaction, keep: bool)
    requires Unfinished(t) && Head(ts).Whitespace? && !Head(Rest(ts)).Tag? && !Head(Rest(ts)).Link?
    ensures var o := TagsSpec(ts, t, keep);
      o.result.Some? ==>
        && IsSuffix(o.rest, ts)
        && o.result.value.tagsAndLinks + TagPairs(o.rest) == t.tagsAndLinks + TagPairs(ts)
  {
    var o := TagsSpec(ts, t, keep);
    var ws := Head(ts).text;
    var ts1 := Rest(ts);
    if Head(ts1).Eol? {
      TagPairsAfterWs(ws, ts1);
      WsEolStep(ts1, t, ws);
      SuffixOfRest(o.rest, ts);
    } else if Head(ts1).Comment? {
      TagPairsAfterWs(ws, ts1);
      CommentEnd(ts1, if keep then t.(wsLast := ws) else t);
      if o.result.Some? {
        SuffixOfRest(o.rest, ts);
      }
    }
  }

  /**
   * With the whitespace before a trailing comment kept, the header
   * `parse_transaction_tags_and_links` returns writes back exactly the
   * text it consumed.
   */
  lemma {:induction false} TagsSpecRoundTrip(ts: seq<Token>, t: Transaction)
    requires Unfinished(t)
    decreases |ts|, 1
    ensures var o := TagsSpec(ts, t, true);
      o.result.Some? ==> TransactionText(o.result.value) + TokensText(o.rest) == Body(t) + TokensText(ts)
  {
    match Head(ts)
    case Whitespace(_) => TagsRoundTripAfterWs(ts, t);
    case Eol(_) =>
      EolEnd(ts, t);
      assert Body(t) + "" == Body(t);
    case Comment(_) =>
      CommentEnd(ts, t);
      assert Body(t) + "" == Body(t);
    case _ =>
  }

  /** The whitespace-then-item step of `TagsSpecRoundTrip`. */
  lemma {:induction false} TagsRoundTripAfterWs(ts: seq<Token>, t: Transaction)
    requires Unfinished(t) && Head(ts).Whitespace?
    decreases |ts|, 0
    ensures var o := TagsSpec(ts, t, true);
      o.result.Some? ==> TransactionText(o.result.value) + TokensText(o.rest) == Body(t) + TokensText(ts)
  {
    var o := TagsSpec(ts, t, true);
    var ws := Head(ts).text;
    var ts1 := Rest(ts);
    TokensTextHead(ts);
    if Head(ts1).Tag? || Head(ts1).Link? {
      var item := ItemOf(ws, Head(ts1));
      var t' := t.(tagsAndLinks := t.tagsAndLinks + [item]);
      assert o == TagsSpec(Rest(ts1), t', true);
      TagsSpecRoundTrip(Rest(ts1), t');
      BodyAddItem(t, item);
      TokensTextHead(ts1);
      ExpScan.AppendAssoc(Body(t) + ws, Head(ts1).text, TokensText(Rest(ts1)));
      ExpScan.AppendAssoc(Body(t), ws, TokensText(ts1));
    } else if Head(ts1).Eol? {
      WsEolStep(ts1, t, ws);
      ExpScan.AppendAssoc(Body(t), ws, TokensText(ts1));
    } else if Head(ts1).Comment? {
      WsCommentStep(ts1, t, ws);
      ExpScan.AppendAssoc(Body(t), ws, TokensText(ts1));
    }
  }

  /** A header with nothing after its type yet. */
  predicate Fresh(t: Transaction)
  {
    Unfinished(t) && t.payee.None? && t.narration.None? && t.tagsAndLinks == []
  }

  lemma BodySetNarration(t: Transaction, n: WithWs<string>)
    requires t.narration.None? && t.tagsAndLinks == []
    ensures Body(t.(narration := Some(n))) == Body(t) + (n.preWs + n.v)
  {
    var p := Concat(t.preComments) + ExpScan.DateToString(t.date) + t.typ.preWs + t.typ.v + OptText(t.payee);
    assert Body(t) == p + "" + "";
    assert p + "" + "" == p;
    assert Body(t.(narration := Some(n))) == p + (n.preWs + n.v) + "";
  }

  lemma BodySetPayeeNarration(t: Transaction, p: WithWs<string>, n: WithWs<string>)
    requires t.payee.None? && t.narration.None? && t.tagsAndLinks == []
    ensures Body(t.(payee := Some(p), narration := Some(n))) == Body(t) + (p.preWs + p.v) + (n.preWs + n.v)
  {
    var q := Concat(t.preComments) + ExpScan.DateToString(t.date) + t.typ.preWs + t.typ.v;
    assert Body(t) == q + "" + "" + "";
    assert q + "" + "" + "" == q;
    assert Body(t.(payee := Some(p), narration := Some(n))) == q + (p.preWs + p.v) + (n.preWs + n.v) + "";
  }

  /** The end of the line right after whitespace `w`: `w` is the trailing whitespace. */
  lemma WsEolStep(ts: seq<Token>, t: Transaction, w: string)
    requires Unfinished(t) && Head(ts).Eol?
    ensures var o := Outcome(Some(t.(wsLast := w, eol := Head(ts).text)), Rest(ts));
      && IsSuffix(o.rest, ts)
      && o.result.value.tagsAndLinks + TagPairs(o.rest) == t.tagsAndLinks + TagPairs([Whitespace(w)] + ts)
      && TransactionText(o.result.value) + TokensText(o.rest) == Body(t) + w + TokensText(ts)
  {
    var eol := Head(ts).text;
    SuffixOfRest(Rest(ts), ts);
    TagPairsAfterWs(w, ts);
    TagPairsSkip(ts);
    TokensTextHead(ts);
    FinishedText(t, w, "", eol, Rest(ts));
    assert Body(t) + w + "" == Body(t) + w;
    ExpScan.AppendAssoc(Body(t) + w, eol, TokensText(Rest(ts)));
  }

  /** A comment right after whitespace `w`: `w` is the trailing whitespace. */
  lemma WsCommentStep(ts: seq<Token>, t: Transaction, w: string)
    requires Unfinished(t) && Head(ts).Comment?
    ensures var o := CommentSpec(Rest(ts), t.(wsLast := w), Head(ts).text);
      o.result.Some? ==>
        && IsSuffix(o.rest, ts)
        && o.result.value.tagsAndLinks + TagPairs(o.rest) == t.tagsAndLinks + TagPairs([Whitespace(w)] + ts)
        && TransactionText(o.result.value) + TokensText(o.rest) == Body(t) + w + TokensText(ts)
  {
    var c := Head(ts).text;
    var o := CommentSpec(Rest(ts), t.(wsLast := w), c);
    CommentSpecProps(Rest(ts), t.(wsLast := w), c);
    TagPairsAfterWs(w, ts);
    TagPairsSkip(ts);
    TokensTextHead(ts);
    if o.result.Some? {
      SuffixOfRest(o.rest, ts);
    }
    ExpScan.AppendAssoc(Body(t) + w, c, TokensText(Rest(ts)));
  }

  /** The item of a whitespace-then-tag-or-link pair. */
  function ItemOf(w: string, tok: Token): WithWs<TagOrLink>
  {
    WithWs(w, if tok.Tag? then TagItem(tok.text) else LinkItem(tok.text))
  }

  /** A tag or link right after whitespace `w` starts the tags loop. */
  lemma WsItemStep(ts: seq<Token>, t: Transaction, w: string, keep: bool)
    requires Unfinished(t) && (Head(ts).Tag? || Head(ts).Link?)
    ensures var o := TagsSpec(Rest(ts), t.(tagsAndLinks := t.tagsAndLinks + [ItemOf(w, Head(ts))]), keep);
      o.result.Some? ==>
        && IsSuffix(o.rest, ts)
        && o.result.value.tagsAndLinks + TagPairs(o.rest) == t.tagsAndLinks + TagPairs([Whitespace(w)] + ts)
        && (keep ==> TransactionText(o.result.value) + TokensText(o.rest) == Body(t) + w + TokensText(ts))
  {
    var item := ItemOf(w, Head(ts));
    var t' := t.(tagsAndLinks := t.tagsAndLinks + [item]);
    var o := TagsSpec(Rest(ts), t', keep);
    TagsSpecPairs(Rest(ts), t', keep);
    TagPairsItem(w, ts);
    assert (t.tagsAndLinks + [item]) + TagPairs(Rest(ts)) == t.tagsAndLinks + ([item] + TagPairs(Rest(ts)));
    if o.result.Some? {
      SuffixOfRest(o.rest, ts);
    }
    if keep {
      TagsSpecRoundTrip(Rest(ts), t');
      BodyAddItem(t, item);
      TokensTextHead(ts);
      ExpScan.AppendAssoc(Body(t) + w, Head(ts).text, TokensText(Rest(ts)));
    }
  }

  /** After payee, narration and `ws3`. */
  lemma AfterThirdWsProps(ts: seq<Token>, t: Transaction, ws3: string, keep: bool)
    requires Unfinished(t)
    ensures var o := AfterThirdWs(ts, t, ws3, keep);
      o.result.Some? ==>
        && IsSuffix(o.rest, ts)
        && o.result.value.tagsAndLinks + TagPairs(o.rest) == t.tagsAndLinks + TagPairs([Whitespace(ws3)] + ts)
        && (keep ==> TransactionText(o.result.value) + TokensText(o.rest) == Body(t) + ws3 + TokensText(ts))
  {
    match Head(ts)
    case Eol(_) => WsEolStep(ts, t, ws3);
    case Comment(_) => WsCommentStep(ts, t, ws3);
    case Tag(_) => WsItemStep(ts, t, ws3, keep);
    case Link(_) => WsItemStep(ts, t, ws3, keep);
    case _ =>
  }

  /** The end of the line after a state with no pending whitespace. */
  lemma EolEnd(ts: seq<Token>, t: Transaction)
    requires t.inlineComment == "" && t.eol == "" && Head(ts).Eol?
    ensures var o := Outcome(Some(t.(eol := Head(ts).text)), Rest(ts));
      && IsSuffix(o.rest, ts)
      && o.result.value.tagsAndLinks + TagPairs(o.rest) == t.tagsAndLinks + TagPairs(ts)
      && TransactionText(o.result.value) + TokensText(o.rest) == Body(t) + t.wsLast + TokensText(ts)
  {
    var eol := Head(ts).text;
    SuffixOfRest(Rest(ts), ts);
    TagPairsSkip(ts);
    TokensTextHead(ts);
    FinishedText(t, t.wsLast, "", eol, Rest(ts));
    assert Body(t) + t.wsLast + "" == Body(t) + t.wsLast;
  }

  /** A comment after a state with no pending whitespace. */
  lemma CommentEnd(ts: seq<Token>, t: Transaction)
    requires t.inlineComment == "" && t.eol == "" && Head(ts).Comment?
    ensures var o := CommentSpec(Rest(ts), t, Head(ts).text);
      o.result.Some? ==>
        && IsSuffix(o.rest, ts)
        && o.result.value.tagsAndLinks + TagPairs(o.rest) == t.tagsAndLinks + TagPairs(ts)
        && TransactionText(o.result.value) + TokensText(o.rest) == Body(t) + t.wsLast + TokensText(ts)
  {
    var c := Head(ts).text;
    var o := CommentSpec(Rest(ts), t, c);
    CommentSpecProps(Rest(ts), t, c);
    TagPairsSkip(ts);
    TokensTextHead(ts);
    if o.result.Some? {
      SuffixOfRest(o.rest, ts);
    }
    ExpScan.AppendAssoc(Body(t) + t.wsLast, c, TokensText(Rest(ts)));
  }

  /** After payee and narration. */
  lemma AfterPayeeNarrationProps(ts: seq<Token>, t: Transaction, keep: bool)
    requires Unfinished(t)
    ensures var o := AfterPayeeNarration(ts, t, keep);
      o.result.Some? ==>
        && IsSuffix(o.rest, ts)
        && o.result.value.tagsAndLinks + TagPairs(o.rest) == t.tagsAndLinks + TagPairs(ts)
        && (keep ==> TransactionText(o.result.value) + TokensText(o.rest) == Body(t) + TokensText(ts))
  {
    var o := AfterPayeeNarration(ts, t, keep);
    match Head(ts)
    case Whitespace(ws3) =>
      TokensTextHead(ts);
      assert ts == [Whitespace(ws3)] + Rest(ts);
      AfterThirdWsProps(Rest(ts), t, ws3, keep);
      if o.result.Some? {
        SuffixOfRest(o.rest, ts);
      }
      ExpScan.AppendAssoc(Body(t), ws3, TokensText(Rest(ts)));
    case Eol(_) =>
      EolEnd(ts, t);
      assert Body(t) + "" == Body(t);
    case Comment(_) =>
      CommentEnd(ts, t);
      assert Body(t) + "" == Body(t);
    case _ =>
  }

  /** After `s1` and `ws2`. */
  lemma AfterSecondWsProps(ts: seq<Token>, t: Transaction, ws1: string, s1: string, ws2: string, keep: bool)
    requires Fresh(t)
    ensures var o := AfterSecondWs(ts, t, ws1, s1, ws2, keep);
      o.result.Some? ==>
        && IsSuffix(o.rest, ts)
        && o.result.value.tagsAndLinks + TagPairs(o.rest) == TagPairs([Whitespace(ws2)] + ts)
        && (keep ==> TransactionText(o.result.value) + TokensText(o.rest) == Body(t) + ws1 + s1 + ws2 + TokensText(ts))
  {
    var o := AfterSecondWs(ts, t, ws1, s1, ws2, keep);
    var n := t.(narration := Some(WithWs(ws1, s1)));
    BodySetNarration(t, WithWs(ws1, s1));
    ExpScan.AppendAssoc(Body(t), ws1, s1);
    match Head(ts)
    case StringLit(s2) =>
      var pn := t.(payee := Some(WithWs(ws1, s1)), narration := Some(WithWs(ws2, s2)));
      AfterPayeeNarrationProps(Rest(ts), pn, keep);
      TagPairsAfterWs(ws2, ts);
      TagPairsSkip(ts);
      if o.result.Some? {
        SuffixOfRest(o.rest, ts);
      }
      if keep {
        BodySetPayeeNarration(t, WithWs(ws1, s1), WithWs(ws2, s2));
        TokensTextHead(ts);
        var b := Body(t) + ws1 + s1;
        var tail := TokensText(Rest(ts));
        calc {
          Body(pn) + tail;
          b + (ws2 + s2) + tail;
          { ExpScan.AppendAssoc(b, ws2, s2); }
          b + ws2 + s2 + tail;
          { ExpScan.AppendAssoc(b + ws2, s2, tail); }
          b + ws2 + (s2 + tail);
        }
      }
    case Eol(_) => WsEolStep(ts, n, ws2);
    case Comment(_) => WsCommentStep(ts, n, ws2);
    case Tag(_) => WsItemStep(ts, n, ws2, keep);
    case Link(_) => WsItemStep(ts, n, ws2, keep);
    case _ =>
  }

  /** After one string `s1`. */
  lemma AfterFirstStringProps(ts: seq<Token>, t: Transaction, ws1: string, s1: string, keep: bool)
    requires Fresh(t)
    ensures var o := AfterFirstString(ts, t, ws1, s1, keep);
      o.result.Some? ==>
        && IsSuffix(o.rest, ts)
        && o.result.value.tagsAndLinks + TagPairs(o.rest) == TagPairs(ts)
        && (keep ==> TransactionText(o.result.value) + TokensText(o.rest) == Body(t) + ws1 + s1 + TokensText(ts))
  {
    var o := AfterFirstString(ts, t, ws1, s1, keep);
    var n := t.(narration := Some(WithWs(ws1, s1)));
    BodySetNarration(t, WithWs(ws1, s1));
    ExpScan.AppendAssoc(Body(t), ws1, s1);
    match Head(ts)
    case Whitespace(ws2) =>
      TokensTextHead(ts);
      assert ts == [Whitespace(ws2)] + Rest(ts);
      AfterSecondWsProps(Rest(ts), t, ws1, s1, ws2, keep);
      if o.result.Some? {
        SuffixOfRest(o.rest, ts);
      }
      ExpScan.AppendAssoc(Body(t) + ws1 + s1, ws2, TokensText(Rest(ts)));
    case Eol(_) =>
      EolEnd(ts, n);
      assert Body(n) + "" == Body(n);
    case Comment(_) =>
      CommentEnd(ts, n);
      assert Body(n) + "" == Body(n);
    case _ =>
  }

  /** After `ws1`. */
  lemma AfterFirstWsProps(ts: seq<Token>, t: Transaction, ws1: string, keep: bool)
    requires Fresh(t)
    ensures var o := AfterFirstWs(ts, t, ws1, keep);
      o.result.Some? ==>
        && IsSuffix(o.rest, ts)
        && o.result.value.tagsAndLinks + TagPairs(o.rest) == TagPairs([Whitespace(ws1)] + ts)
        && (keep ==> TransactionText(o.result.value) + TokensText(o.rest) == Body(t) + ws1 + TokensText(ts))
  {
    var o := AfterFirstWs(ts, t, ws1, keep);
    match Head(ts)
    case StringLit(s1) =>
      AfterFirstStringProps(Rest(ts), t, ws1, s1, keep);
      TagPairsAfterWs(ws1, ts);
      TagPairsSkip(ts);
      TokensTextHead(ts);
      if o.result.Some? {
        SuffixOfRest(o.rest, ts);
      }
      ExpScan.AppendAssoc(Body(t) + ws1, s1, TokensText(Rest(ts)));
    case Eol(_) => WsEolStep(ts, t, ws1);
    case Comment(_) => WsCommentStep(ts, t, ws1);
    case Tag(_) => WsItemStep(ts, t, ws1, keep);
    case Link(_) => WsItemStep(ts, t, ws1, keep);
    case _ =>
  }

  /** The payee and narration of a header, unchanged. */
  predicate KeepsNames(o: Outcome, t: Transaction)
  {
    o.result.Some? ==> o.result.value.payee == t.payee && o.result.value.narration == t.narration
  }

  lemma CommentKeepsNames(ts: seq<Token>, t: Transaction, c: string)
    ensures KeepsNames(CommentSpec(ts, t, c), t)
  {
  }

  /** The tags loop never touches the payee or the narration. */
  lemma {:induction false} TagsKeepNames(ts: seq<Token>, t: Transaction, keep: bool)
    decreases |ts|
    ensures KeepsNames(TagsSpec(ts, t, keep), t)
  {
    if Head(ts).Whitespace? {
      var ts1 := Rest(ts);
      var ws := Head(ts).text;
      if Head(ts1).Tag? || Head(ts1).Link? {
        TagsKeepNames(Rest(ts1), t.(tagsAndLinks := t.tagsAndLinks + [ItemOf(ws, Head(ts1))]), keep);
      }
    }
  }

  /** After payee and narration, nothing changes them. */
  lemma PayeeNarrationKept(ts: seq<Token>, t: Transaction, keep: bool)
    ensures KeepsNames(AfterPayeeNarration(ts, t, keep), t)
  {
    match Head(ts)
    case Whitespace(ws3) =>
      var r := Rest(ts);
      if Head(r).Tag? || Head(r).Link? {
        TagsKeepNames(Rest(r), t.(tagsAndLinks := t.tagsAndLinks + [ItemOf(ws3, Head(r))]), keep);
      }
    case _ =>
  }

  /**
   * After `s1` and `ws2`: a second string makes `s1` the payee and itself
   * the narration; anything else leaves `s1` the narration, with no payee.
   */
  lemma AfterSecondWsNames(ts: seq<Token>, t: Transaction, ws1: string, s1: string, ws2: string, keep: bool)
    requires t.payee.None?
    ensures var o := AfterSecondWs(ts, t, ws1, s1, ws2, keep);
      o.result.Some? ==>
        if Head(ts).StringLit? then
          o.result.value.payee == Some(WithWs(ws1, s1)) && o.result.value.narration == Some(WithWs(ws2, Head(ts).text))
        else
          o.result.value.payee.None? && o.result.value.narration == Some(WithWs(ws1, s1))
  {
    var n := t.(narration := Some(WithWs(ws1, s1)));
    match Head(ts)
    case StringLit(s2) =>
      PayeeNarrationKept(Rest(ts), t.(payee := Some(WithWs(ws1, s1)), narration := Some(WithWs(ws2, s2))), keep);
    case Tag(x) => TagsKeepNames(Rest(ts), n.(tagsAndLinks := n.tagsAndLinks + [WithWs(ws2, TagItem(x))]), keep);
    case Link(x) => TagsKeepNames(Rest(ts), n.(tagsAndLinks := n.tagsAndLinks + [WithWs(ws2, LinkItem(x))]), keep);
    case _ =>
  }

  /**
   * The payee and narration a header line carries: one string after the
   * type is the narration; a second one, after whitespace, makes the first
   * the payee and itself the narration.
   */
  function HeaderNames(ts: seq<Token>): (Option<WithWs<string>>, Option<WithWs<string>>)
  {
    if Head(ts).Whitespace? && Head(Rest(ts)).StringLit? then
      var first := WithWs(Head(ts).text, Head(Rest(ts)).text);
      var r := Rest(Rest(ts));
      if Head(r).Whitespace? && Head(Rest(r)).StringLit? then
        (Some(first), Some(WithWs(Head(r).text, Head(Rest(r)).text)))
      else (None, Some(first))
    else (None, None)
  }

  /** After one string `s1`. */
  lemma AfterFirstStringNames(ts: seq<Token>, t: Transaction, ws1: string, s1: string, keep: bool)
    requires t.payee.None?
    ensures var o := AfterFirstString(ts, t, ws1, s1, keep);
      o.result.Some? ==>
        (o.result.value.payee, o.result.value.narration) == HeaderNames([Whitespace(ws1), StringLit(s1)] + ts)
  {
    var all := [Whitespace(ws1), StringLit(s1)] + ts;
    assert Head(all) == Whitespace(ws1) && Rest(all) == [StringLit(s1)] + ts;
    assert Head(Rest(all)) == StringLit(s1) && Rest(Rest(all)) == ts;
    if Head(ts).Whitespace? {
      AfterSecondWsNames(Rest(ts), t, ws1, s1, Head(ts).text, keep);
    }
  }

  /** After `ws1`. */
  lemma AfterFirstWsNames(ts: seq<Token>, t: Transaction, ws1: string, keep: bool)
    requires t.payee.None? && t.narration.None?
    ensures var o := AfterFirstWs(ts, t, ws1, keep);
      o.result.Some? ==> (o.result.value.payee, o.result.value.narration) == HeaderNames([Whitespace(ws1)] + ts)
  {
    var all := [Whitespace(ws1)] + ts;
    assert Head(all) == Whitespace(ws1) && Rest(all) == ts;
    match Head(ts)
    case StringLit(s1) =>
      AfterFirstStringNames(Rest(ts), t, ws1, s1, keep);
      assert ts == [StringLit(s1)] + Rest(ts);
      assert all == [Whitespace(ws1), StringLit(s1)] + Rest(ts);
    case Tag(x) => TagsKeepNames(Rest(ts), t.(tagsAndLinks := t.tagsAndLinks + [WithWs(ws1, TagItem(x))]), keep);
    case Link(x) => TagsKeepNames(Rest(ts), t.(tagsAndLinks := t.tagsAndLinks + [WithWs(ws1, LinkItem(x))]), keep);
    case _ =>
  }

  /**
   * `parse_transaction` fills the payee and narration as `HeaderNames`
   * says, whatever tags, links or comment follow them.
   */
  lemma HeaderNamesProps(ts: seq<Token>, preComments: seq<string>, date: ExpScan.Date, typ: WithWs<string>, keep: bool)
    ensures var o := HeaderSpec(ts, Initial(preComments, date, typ), keep);
      o.result.Some? ==> (o.result.value.payee, o.result.value.narration) == HeaderNames(ts)
  {
    if Head(ts).Whitespace? {
      AfterFirstWsNames(Rest(ts), Initial(preComments, date, typ), Head(ts).text, keep);
      assert ts == [Whitespace(Head(ts).text)] + Rest(ts);
    }
  }

  /** In every state, a token the state does not expect ends the parse with `None`. */
  lemma UnexpectedRejected(ts: seq<Token>, t: Transaction, ws: string, s: string, keep: bool)
    ensures var h := Head(ts);
      && (!h.StringLit? && !h.Eol? && !h.Comment? && !h.Tag? && !h.Link? ==> AfterFirstWs(ts, t, ws, keep).result.None?)
      && (!h.Whitespace? && !h.Eol? && !h.Comment? ==> AfterFirstString(ts, t, ws, s, keep).result.None?)
      && (!h.StringLit? && !h.Eol? && !h.Comment? && !h.Tag? && !h.Link? ==> AfterSecondWs(ts, t, ws, s, ws, keep).result.None?)
      && (!h.Whitespace? && !h.Eol? && !h.Comment? ==> AfterPayeeNarration(ts, t, keep).result.None?)
      && (!h.Eol? && !h.Comment? && !h.Tag? && !h.Link? ==> AfterThirdWs(ts, t, ws, keep).result.None?)
      && (!h.Whitespace? && !h.Eol? && !h.Comment? ==> TagsSpec(ts, t, keep).result.None?)
      && (!h.Eol? ==> CommentSpec(ts, t, s).result.None?)
  {
  }

  /** Inside the tags loop, whitespace followed by an unexpected token ends the parse with `None`. */
  lemma TagsRejectAfterWs(w: string, ts: seq<Token>, t: Transaction, keep: bool)
    requires !Head(ts).Eol? && !Head(ts).Comment? && !Head(ts).Tag? && !Head(ts).Link?
    ensures TagsSpec([Whitespace(w)] + ts, t, keep).result.None?
  {
    assert Rest([Whitespace(w)] + ts) == ts;
  }

  lemma InitialBody(preComments: seq<string>, date: ExpScan.Date, typ: WithWs<string>)
    ensures Body(Initial(preComments, date, typ))
      == Concat(preComments) + ExpScan.DateToString(date) + typ.preWs + typ.v
  {
    var q := Concat(preComments) + ExpScan.DateToString(date) + typ.preWs + typ.v;
    assert q + "" + "" + "" == q;
  }

  /**
   * `parse_transaction` from the first token after the type: it consumes a
   * prefix of the tokens, its tags and links are exactly the
   * whitespace-and-item pairs of that prefix, in order, and, with the
   * whitespace before a trailing comment kept, writing the header back
   * gives the header's text followed by the consumed tokens' text.
   */
  lemma HeaderProps(ts: seq<Token>, preComments: seq<string>, date: ExpScan.Date, typ: WithWs<string>, keep: bool)
    ensures var o := HeaderSpec(ts, Initial(preComments, date, typ), keep);
      o.result.Some? ==>
        && IsSuffix(o.rest, ts)
        && o.result.value.tagsAndLinks + TagPairs(o.rest) == TagPairs(ts)
        && (keep ==>
              TransactionText(o.result.value) + TokensText(o.rest)
              == Concat(preComments) + ExpScan.DateToString(date) + typ.preWs + typ.v + TokensText(ts))
  {
    var t := Initial(preComments, date, typ);
    var o := HeaderSpec(ts, t, keep);
    InitialBody(preComments, date, typ);
    match Head(ts)
    case Eol(_) =>
      EolEnd(ts, t);
      assert Body(t) + "" == Body(t);
    case Comment(_) =>
      CommentEnd(ts, t);
      assert Body(t) + "" == Body(t);
    case Whitespace(ws1) =>
      assert ts == [Whitespace(ws1)] + Rest(ts);
      AfterFirstWsProps(Rest(ts), t, ws1, keep);
      TokensTextHead(ts);
      if o.result.Some? {
        SuffixOfRest(o.rest, ts);
      }
      ExpScan.AppendAssoc(Body(t), ws1, TokensText(Rest(ts)));
    case _ =>
  }

  /** A header line with nothing after the type. */
  lemma HeaderBare(ts: seq<Token>, t: Transaction, keep: bool)
    requires Fresh(t) && Head(ts).Eol?
    ensures HeaderSpec(ts, t, keep) == Outcome(Some(t.(eol := Head(ts).text)), Rest(ts))
    ensures var r := HeaderSpec(ts, t, keep).result.value;
      r.payee.None? && r.narration.None? && r.tagsAndLinks == []
  {
  }

  /** One string after the type is the narration. */
  lemma HeaderNarration(w: string, n: string, e: string, rest: seq<Token>, t: Transaction, keep: bool)
    requires Fresh(t)
    ensures HeaderSpec([Whitespace(w), StringLit(n), Eol(e)] + rest, t, keep)
      == Outcome(Some(t.(narration := Some(WithWs(w, n)), eol := e)), rest)
  {
    var ts := [Whitespace(w), StringLit(n), Eol(e)] + rest;
    assert Head(ts) == Whitespace(w) && Rest(ts) == [StringLit(n), Eol(e)] + rest;
    assert Rest(Rest(ts)) == [Eol(e)] + rest;
    assert Rest(Rest(Rest(ts))) == rest;
  }

  /** Two strings after the type are the payee and the narration. */
  lemma HeaderPayeeNarration(w1: string, p: string, w2: string, n: string, e: string, rest: seq<Token>,
                             t: Transaction, keep: bool)
    requires Fresh(t)
    ensures HeaderSpec([Whitespace(w1), StringLit(p), Whitespace(w2), StringLit(n), Eol(e)] + rest, t, keep)
      == Outcome(Some(t.(payee := Some(WithWs(w1, p)), narration := Some(WithWs(w2, n)), eol := e)), rest)
  {
    var ts := [Whitespace(w1), StringLit(p), Whitespace(w2), StringLit(n), Eol(e)] + rest;
    assert Head(ts) == Whitespace(w1) && Rest(ts) == ts[1..];
    assert Head(ts[1..]) == StringLit(p) && Rest(ts[1..]) == ts[2..];
    assert Head(ts[2..]) == Whitespace(w2) && Rest(ts[2..]) == ts[3..];
    assert Head(ts[3..]) == StringLit(n) && Rest(ts[3..]) == ts[4..];
    assert Head(ts[4..]) == Eol(e) && Rest(ts[4..]) == rest;
  }

  /** Anything but whitespace, a comment or the end right after the type is rejected. */
  lemma HeaderRejects(ts: seq<Token>, t: Transaction, keep: bool)
    requires !Head(ts).Eol? && !Head(ts).Whitespace? && !Head(ts).Comment?
    ensures HeaderSpec(ts, t, keep).result.None?
  {
  }

  // ---------------------------------------------------------------------
  // The parser as written against the corrected one
  // ---------------------------------------------------------------------

  /** No whitespace token is directly followed by a comment token. */
  predicate NoWsBeforeComment(ts: seq<Token>)
  {
    forall i :: 0 <= i < |ts| - 1 && ts[i].Whitespace? ==> !ts[i + 1].Comment?
  }

  lemma NoWsBeforeCommentRest(ts: seq<Token>)
    requires NoWsBeforeComment(ts)
    ensures NoWsBeforeComment(Rest(ts))
    ensures Head(ts).Whitespace? ==> !Head(Rest(ts)).Comment?
  {
    if ts != [] {
      var r := Rest(ts);
      forall i | 0 <= i < |r| - 1 && r[i].Whitespace? ensures !r[i + 1].Comment? {
        assert r[i] == ts[i + 1] && r[i + 1] == ts[i + 2];
      }
      if |ts| > 1 {
        assert Head(r) == ts[1];
      }
    }
  }

  /**
   * Two outcomes that differ at most in the whitespace before the end of
   * the line: same tokens left, same acceptance, and the same header apart
   * from `ws_last`.
   */
  predicate SameButWsLast(a: Outcome, b: Outcome)
  {
    a.rest == b.rest && a.result.Some? == b.result.Some?
    && (a.result.Some? ==> a.result.value == b.result.value.(wsLast := a.result.value.wsLast))
  }

  /**
   * The tags loop as written and corrected: they differ at most in
   * `ws_last`, and not at all unless a whitespace token is followed by a
   * comment.
   */
  lemma {:induction false} TagsKeepAgree(ts: seq<Token>, t: Transaction)
    ensures SameButWsLast(TagsSpec(ts, t, false), TagsSpec(ts, t, true))
    ensures NoWsBeforeComment(ts) ==> TagsSpec(ts, t, false) == TagsSpec(ts, t, true)
    decreases |ts|
  {
    if NoWsBeforeComment(ts) {
      NoWsBeforeCommentRest(ts);
      NoWsBeforeCommentRest(Rest(ts));
    }
    match Head(ts)
    case Whitespace(ws) =>
      var ts1 := Rest(ts);
      match Head(ts1) {
        case Tag(x) => TagsKeepAgree(Rest(ts1), t.(tagsAndLinks := t.tagsAndLinks + [WithWs(ws, TagItem(x))]));
        case Link(x) => TagsKeepAgree(Rest(ts1), t.(tagsAndLinks := t.tagsAndLinks + [WithWs(ws, LinkItem(x))]));
        case _ =>
      }
    case _ =>
  }

  lemma AfterThirdWsKeepAgree(ts: seq<Token>, t: Transaction, ws3: string)
    ensures SameButWsLast(AfterThirdWs(ts, t, ws3, false), AfterThirdWs(ts, t, ws3, true))
    ensures NoWsBeforeComment(ts) ==> AfterThirdWs(ts, t, ws3, false) == AfterThirdWs(ts, t, ws3, true)
    ensures var b := AfterThirdWs(ts, t, ws3, true);
      (b.result.Some? ==> b.result.value.tagsAndLinks == t.tagsAndLinks) ==> AfterThirdWs(ts, t, ws3, false) == b
  {
    if NoWsBeforeComment(ts) {
      NoWsBeforeCommentRest(ts);
    }
    match Head(ts)
    case Tag(x) => TagsKeepAgree(Rest(ts), t.(tagsAndLinks := t.tagsAndLinks + [WithWs(ws3, TagItem(x))]));
    case Link(x) => TagsKeepAgree(Rest(ts), t.(tagsAndLinks := t.tagsAndLinks + [WithWs(ws3, LinkItem(x))]));
    case _ =>
  }

  lemma AfterPayeeNarrationKeepAgree(ts: seq<Token>, t: Transaction)
    ensures SameButWsLast(AfterPayeeNarration(ts, t, false), AfterPayeeNarration(ts, t, true))
    ensures NoWsBeforeComment(ts) ==> AfterPayeeNarration(ts, t, false) == AfterPayeeNarration(ts, t, true)
    ensures var b := AfterPayeeNarration(ts, t, true);
      (b.result.Some? ==> b.result.value.tagsAndLinks == t.tagsAndLinks) ==> AfterPayeeNarration(ts, t, false) == b
  {
    if NoWsBeforeComment(ts) {
      NoWsBeforeCommentRest(ts);
    }
    if Head(ts).Whitespace? {
      AfterThirdWsKeepAgree(Rest(ts), t, Head(ts).text);
    }
  }

  lemma AfterSecondWsKeepAgree(ts: seq<Token>, t: Transaction, ws1: string, s1: string, ws2: string)
    ensures SameButWsLast(AfterSecondWs(ts, t, ws1, s1, ws2, false), AfterSecondWs(ts, t, ws1, s1, ws2, true))
    ensures NoWsBeforeComment(ts) ==> AfterSecondWs(ts, t, ws1, s1, ws2, false) == AfterSecondWs(ts, t, ws1, s1, ws2, true)
    ensures var b := AfterSecondWs(ts, t, ws1, s1, ws2, true);
      (b.result.Some? ==> b.result.value.tagsAndLinks == t.tagsAndLinks) ==> AfterSecondWs(ts, t, ws1, s1, ws2, false) == b
  {
    if NoWsBeforeComment(ts) {
      NoWsBeforeCommentRest(ts);
    }
    var n := t.(narration := Some(WithWs(ws1, s1)));
    match Head(ts)
    case StringLit(s2) =>
      AfterPayeeNarrationKeepAgree(Rest(ts), t.(payee := Some(WithWs(ws1, s1)), narration := Some(WithWs(ws2, s2))));
    case Tag(x) => TagsKeepAgree(Rest(ts), n.(tagsAndLinks := n.tagsAndLinks + [WithWs(ws2, TagItem(x))]));
    case Link(x) => TagsKeepAgree(Rest(ts), n.(tagsAndLinks := n.tagsAndLinks + [WithWs(ws2, LinkItem(x))]));
    case _ =>
  }

  lemma AfterFirstStringKeepAgree(ts: seq<Token>, t: Transaction, ws1: string, s1: string)
    ensures SameButWsLast(AfterFirstString(ts, t, ws1, s1, false), AfterFirstString(ts, t, ws1, s1, true))
    ensures NoWsBeforeComment(ts) ==> AfterFirstString(ts, t, ws1, s1, false) == AfterFirstString(ts, t, ws1, s1, true)
    ensures var b := AfterFirstString(ts, t, ws1, s1, true);
      (b.result.Some? ==> b.result.value.tagsAndLinks == t.tagsAndLinks) ==> AfterFirstString(ts, t, ws1, s1, false) == b
  {
    if NoWsBeforeComment(ts) {
      NoWsBeforeCommentRest(ts);
    }
    if Head(ts).Whitespace? {
      AfterSecondWsKeepAgree(Rest(ts), t, ws1, s1, Head(ts).text);
    }
  }

  lemma AfterFirstWsKeepAgree(ts: seq<Token>, t: Transaction, ws1: string)
    ensures SameButWsLast(AfterFirstWs(ts, t, ws1, false), AfterFirstWs(ts, t, ws1, true))
    ensures NoWsBeforeComment(ts) ==> AfterFirstWs(ts, t, ws1, false) == AfterFirstWs(ts, t, ws1, true)
    ensures var b := AfterFirstWs(ts, t, ws1, true);
      (b.result.Some? ==> b.result.value.tagsAndLinks == t.tagsAndLinks) ==> AfterFirstWs(ts, t, ws1, false) == b
  {
    if NoWsBeforeComment(ts) {
      NoWsBeforeCommentRest(ts);
    }
    match Head(ts)
    case StringLit(s1) => AfterFirstStringKeepAgree(Rest(ts), t, ws1, s1);
    case Tag(x) => TagsKeepAgree(Rest(ts), t.(tagsAndLinks := t.tagsAndLinks + [WithWs(ws1, TagItem(x))]));
    case Link(x) => TagsKeepAgree(Rest(ts), t.(tagsAndLinks := t.tagsAndLinks + [WithWs(ws1, LinkItem(x))]));
    case _ =>
  }

  /**
   * `parse_transaction` as written differs from the corrected parser at
   * most in `ws_last`, and only on a line where a whitespace token is
   * directly followed by a comment.
   */
  lemma HeaderKeepAgree(ts: seq<Token>, t: Transaction)
    ensures SameButWsLast(HeaderSpec(ts, t, false), HeaderSpec(ts, t, true))
    ensures NoWsBeforeComment(ts) ==> HeaderSpec(ts, t, false) == HeaderSpec(ts, t, true)
    ensures var b := HeaderSpec(ts, t, true);
      (b.result.Some? ==> b.result.value.tagsAndLinks == t.tagsAndLinks) ==> HeaderSpec(ts, t, false) == b
  {
    if NoWsBeforeComment(ts) {
      NoWsBeforeCommentRest(ts);
    }
    if Head(ts).Whitespace? {
      AfterFirstWsKeepAgree(Rest(ts), t, Head(ts).text);
    }
  }

  /**
   * The round trip of `parse_transaction` as written: on a header line
   * without whitespace directly before a comment, writing back the header
   * gives its text followed by the consumed tokens' text. This covers every
   * line without tags or links, and every line whose tags and links are not
   * followed by a comment.
   */
  /**
   * The round trip of `parse_transaction` as written, for a header line
   * without tags or links: writing back the header gives its text followed
   * by the consumed tokens' text.
   */
  lemma AsWrittenRoundTripNoTags(ts: seq<Token>, preComments: seq<string>, date: ExpScan.Date, typ: WithWs<string>)
    ensures var o := HeaderSpec(ts, Initial(preComments, date, typ), false);
      o.result.Some? && o.result.value.tagsAndLinks == [] ==>
        TransactionText(o.result.value) + TokensText(o.rest)
        == Concat(preComments) + ExpScan.DateToString(date) + typ.preWs + typ.v + TokensText(ts)
  {
    HeaderKeepAgree(ts, Initial(preComments, date, typ));
    HeaderProps(ts, preComments, date, typ, true);
  }

  lemma AsWrittenRoundTrip(ts: seq<Token>, preComments: seq<string>, date: ExpScan.Date, typ: WithWs<string>)
    requires NoWsBeforeComment(ts)
    ensures var o := HeaderSpec(ts, Initial(preComments, date, typ), false);
      o.result.Some? ==>
        TransactionText(o.result.value) + TokensText(o.rest)
        == Concat(preComments) + ExpScan.DateToString(date) + typ.preWs + typ.v + TokensText(ts)
  {
    HeaderKeepAgree(ts, Initial(preComments, date, typ));
    HeaderProps(ts, preComments, date, typ, true);
  }

  /**
   * As written, the whitespace between the last tag or link and a trailing
   * comment is lost: ` #a ;c` after the type is written back as ` #a;c`.
   */
  lemma DroppedWhitespace(date: ExpScan.Date)
    ensures var ts := [Whitespace(" "), Tag("#a"), Whitespace(" "), Comment(";c"), Eol("\n")];
      var o := HeaderSpec(ts, Initial([], date, WithWs(" ", "*")), false);
      && o.result.Some? && o.rest == []
      && TransactionText(o.result.value) + TokensText(o.rest)
         != Concat([]) + ExpScan.DateToString(date) + " " + "*" + TokensText(ts)
  {
    var ts := [Whitespace(" "), Tag("#a"), Whitespace(" "), Comment(";c"), Eol("\n")];
    var t := Initial([], date, WithWs(" ", "*"));
    var t1 := t.(tagsAndLinks := [WithWs(" ", TagItem("#a"))]);
    assert Rest(ts) == ts[1..] && Rest(ts[1..]) == ts[2..] && Rest(ts[2..]) == ts[3..];
    assert Rest(ts[3..]) == ts[4..] && Rest(ts[4..]) == [];
    assert Head(ts) == Whitespace(" ") && Head(ts[1..]) == Tag("#a") && Head(ts[2..]) == Whitespace(" ");
    assert Head(ts[3..]) == Comment(";c") && Head(ts[4..]) == Eol("\n");
    assert t.tagsAndLinks + [WithWs(" ", TagItem("#a"))] == t1.tagsAndLinks;
    assert HeaderSpec(ts, t, false) == AfterFirstWs(ts[1..], t, " ", false);
    assert AfterFirstWs(ts[1..], t, " ", false) == TagsSpec(ts[2..], t1, false);
    assert TagsSpec(ts[2..], t1, false) == CommentSpec(ts[4..], t1, ";c");
    var o := HeaderSpec(ts, t, false);
    assert o == Outcome(Some(t1.(inlineComment := ";c", eol := "\n")), []);
    InitialBody([], date, WithWs(" ", "*"));
    BodyAddItem(t, WithWs(" ", TagItem("#a")));
    assert [] + [WithWs(" ", TagItem("#a"))] == t1.tagsAndLinks;
    var b := Body(t);
    assert |TransactionText(o.result.value)| == |b| + 6;
    assert |TokensText(ts)| == 7;
  }
}
