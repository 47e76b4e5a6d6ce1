/**
 * Stock split: every amount denominated in one commodity is rescaled by a
 * ratio, and the costs and unit prices attached to it inversely, so that a
 * posting's value in its cost or price currency is kept.
 */
module SplitStock {
  import opened Wrappers
  import opened Types

  /** `split_stock_posting`. */
  function SplitPosting(p: Posting, commodity: Currency, ratio: real): (q: Posting)
    requires ratio != 0.0
    // nothing but the three numeric fields changes
    ensures q.flag == p.flag && q.account == p.account && q.metadata == p.metadata
    ensures q.autocomputed == p.autocomputed
    ensures q.amount.Some? == p.amount.Some?
    ensures p.amount.Some? ==> q.amount.value.currency == p.amount.value.currency
    ensures q.cost.Some? == p.cost.Some?
    ensures p.cost.Some? ==>
      (q.cost.value.date == p.cost.value.date
       && q.cost.value.amount.Some? == p.cost.value.amount.Some?
       && (p.cost.value.amount.Some? ==> q.cost.value.amount.value.currency == p.cost.value.amount.value.currency))
    ensures q.price.Some? == p.price.Some?
    ensures p.price.Some? ==>
      (q.price.value.Unit? == p.price.value.Unit?
       && q.price.value.amount.currency == p.price.value.amount.currency)
    // a posting not in the commodity is left exactly as it was
    ensures (p.amount.None? || p.amount.value.currency != commodity) ==> q == p
  {
    match p.amount
    case None => p
    case Some(amount) =>
      if amount.currency != commodity then p
      else
        var cost := match p.cost
          case Some(Cost(Some(c), date)) => Some(Cost(Some(c.(value := c.value / ratio)), date))
          case other => other;
        var price := match p.price
          case Some(Unit(u)) => Some(Unit(u.(value := u.value / ratio)))
          case other => other;
        p.(amount := Some(amount.(value := amount.value * ratio)), cost := cost, price := price)
  }

  /** The effect of the split on one directive (the body of the outer loop). */
  function SplitDirective(d: Directive, commodity: Currency, ratio: real): (r: Directive)
    requires ratio != 0.0
    ensures r.date == d.date && r.metadata == d.metadata
  {
    match d.content
    case Balance(account, amount) =>
      if amount.currency != commodity then d
      else d.(content := Balance(account, amount.(value := amount.value * ratio)))
    case Price(currency, amount) =>
      if currency != commodity then d
      else d.(content := Price(currency, amount.(value := amount.value / ratio)))
    case Txn(t) =>
      d.(content := Txn(t.(postings := seq(|t.postings|, k requires 0 <= k < |t.postings| =>
        SplitPosting(t.postings[k], commodity, ratio)))))
    case _ => d
  }

  /**
   * A split multiplies the value of a commodity posting and divides its cost
   * and unit price by the same ratio, so amount * cost and amount * unit price
   * are the same before and after; a total (`@@`) price is not touched.
   */
  lemma SplitPostingKeepsWeight(p: Posting, commodity: Currency, ratio: real)
    requires ratio != 0.0
    requires p.amount.Some? && p.amount.value.currency == commodity
    ensures var q := SplitPosting(p, commodity, ratio);
      q.amount.value.value == p.amount.value.value * ratio
      && (p.cost.Some? && p.cost.value.amount.Some? ==>
            q.cost.value.amount.value.value * ratio == p.cost.value.amount.value.value
            && q.amount.value.value * q.cost.value.amount.value.value
               == p.amount.value.value * p.cost.value.amount.value.value)
      && (p.price.Some? && p.price.value.Unit? ==>
            q.price.value.amount.value * ratio == p.price.value.amount.value
            && q.amount.value.value * q.price.value.amount.value
               == p.amount.value.value * p.price.value.amount.value)
      && (p.price.Some? && p.price.value.Total? ==> q.price == p.price)
  {
    var q := SplitPosting(p, commodity, ratio);
    var a := p.amount.value.value;
    if p.cost.Some? && p.cost.value.amount.Some? {
      var c := p.cost.value.amount.value.value;
      assert q.cost.value.amount.value.value == c / ratio;
      calc {
        q.amount.value.value * q.cost.value.amount.value.value;
        (a * ratio) * (c / ratio);
        a * c * (ratio / ratio);
        a * c;
      }
    }
    if p.price.Some? && p.price.value.Unit? {
      var u := p.price.value.amount.value;
      assert q.price.value.amount.value == u / ratio;
      calc {
        q.amount.value.value * q.price.value.amount.value;
        (a * ratio) * (u / ratio);
        a * u * (ratio / ratio);
        a * u;
      }
    }
  }

  /**
   * Balance assertions in the commodity are multiplied by the ratio, prices
   * of the commodity divided by it; Close, Commodity, Event, Open and Pad
   * directives and other currencies' balances and prices are untouched.
   */
  lemma SplitDirectiveEffect(d: Directive, commodity: Currency, ratio: real)
    requires ratio != 0.0
    ensures var r := SplitDirective(d, commodity, ratio);
      match d.content
      case Balance(account, amount) =>
        r.content == Balance(account, Amount(
          if amount.currency == commodity then amount.value * ratio else amount.value, amount.currency))
      case Price(currency, amount) =>
        r.content == Price(currency, Amount(
          if currency == commodity then amount.value / ratio else amount.value, amount.currency))
      case Txn(t) =>
        r.content.Txn? && r.content.transaction.(postings := t.postings) == t
        && |r.content.transaction.postings| == |t.postings|
        && forall k :: 0 <= k < |t.postings| ==>
             r.content.transaction.postings[k] == SplitPosting(t.postings[k], commodity, ratio)
      case _ => r == d
  {
  }

  /** Splitting a list of directives keeps their number, order and dates. */
  function SplitAll(ds: seq<Directive>, commodity: Currency, ratio: real): (r: seq<Directive>)
    requires ratio != 0.0
    ensures |r| == |ds|
    ensures forall k :: 0 <= k < |ds| ==> r[k].date == ds[k].date
  {
    seq(|ds|, k requires 0 <= k < |ds| => SplitDirective(ds[k], commodity, ratio))
  }

  /** `split_stock`: rescales the file in place; it always returns `Ok(())`. */
  method Split(file: BeancountFile, commodity: Currency, ratio: real)
    requires ratio != 0.0
    modifies file
    ensures file.directives == SplitAll(old(file.directives), commodity, ratio)
  {
    var i := 0;
    while i < |file.directives|
      invariant 0 <= i <= |file.directives| == |old(file.directives)|
      invariant forall k :: 0 <= k < i ==>
        file.directives[k] == SplitDirective(old(file.directives)[k], commodity, ratio)
      invariant forall k :: i <= k < |file.directives| ==> file.directives[k] == old(file.directives)[k]
    {
      var d := SplitOne(file.directives[i], commodity, ratio);
      file.directives := file.directives[i := d];
      i := i + 1;
    }
  }

  /** The body of the loop over directives: one directive rescaled. */
  method SplitOne(d: Directive, commodity: Currency, ratio: real) returns (r: Directive)
    requires ratio != 0.0
    ensures r == SplitDirective(d, commodity, ratio)
  {
    SplitDirectiveEffect(d, commodity, ratio);
    r := d;
    match d.content {
      case Balance(account, amount) =>
        if amount.currency == commodity {
          r := d.(content := Balance(account, amount.(value := amount.value * ratio)));
        }
      case Close(_) =>
      case Commodity(_) =>
      case Event(_, _) =>
      case Open(_, _) =>
      case Pad(_, _) =>
      case Price(currency, amount) =>
        if currency == commodity {
          r := d.(content := Price(currency, amount.(value := amount.value / ratio)));
        }
      case Txn(t) =>
        var postings := SplitPostings(t.postings, commodity, ratio);
        r := d.(content := Txn(t.(postings := postings)));
    }
  }

  /** The loop over the postings of a transaction, each rescaled in place. */
  method SplitPostings(ps: seq<Posting>, commodity: Currency, ratio: real) returns (postings: seq<Posting>)
    requires ratio != 0.0
    ensures |postings| == |ps|
    ensures forall j :: 0 <= j < |ps| ==> postings[j] == SplitPosting(ps[j], commodity, ratio)
  {
    postings := ps;
    var k := 0;
    while k < |postings|
      invariant 0 <= k <= |postings| == |ps|
      invariant forall j :: 0 <= j < k ==> postings[j] == SplitPosting(ps[j], commodity, ratio)
      invariant forall j :: k <= j < |postings| ==> postings[j] == ps[j]
    {
      postings := postings[k := SplitPosting(postings[k], commodity, ratio)];
      k := k + 1;
    }
  }

}
