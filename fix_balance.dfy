/**
 * The balance-assertion checker: a state machine over the directives of a
 * whole ledger, sorted by date with balance assertions first on each day.
 * Transactions feed per-account bags, pads mark accounts whose next balance
 * assertion is taken as given, and every other balance assertion either
 * records a failure or marks the earlier failures of its account as fixed.
 */
module FixBalance {
  import opened Types
  import opened Ordering
  import opened Bags

  /** `priority`: balance assertions sort before everything else of their day. */
  function Priority(d: Directive): (r: int)
    ensures r == 0 || r == 1
    ensures r == 0 <==> d.content.Balance?
  {
    match d.content
    case Balance(_, _) => 0
    case _ => 1
  }

  /** The accepted difference between an asserted and a computed balance. */
  const Tolerance: real := 40.0 / 1000.0

  /** One failed balance assertion, as the report line shows it. */
  datatype Failure = Failure(date: Date, account: Account, expected: Amount, got: real, fixedLater: bool)

  datatype CheckState = CheckState(
    accounts: map<Account, map<Currency, real>>,
    padded: set<Account>,
    failed: seq<Failure>)

  const Start := CheckState(map[], {}, [])

  /** The bag of an account; a missing account has the empty bag. */
  function BagOf(accounts: map<Account, map<Currency, real>>, a: Account): map<Currency, real>
  {
    if a in accounts then accounts[a] else map[]
  }

  function Abs(x: real): (r: real)
    ensures r >= 0.0 && (r == x || r == -x)
  {
    if x < 0.0 then -x else x
  }

  /**
   * Marks every failure on `account`, in any currency, as fixed later;
   * nothing else about the list changes.
   */
  function MarkFixed(failed: seq<Failure>, account: Account): (r: seq<Failure>)
    ensures |r| == |failed|
    ensures forall k :: 0 <= k < |failed| ==>
      r[k] == failed[k].(fixedLater := failed[k].fixedLater || failed[k].account == account)
  {
    if failed == [] then []
    else
      var f := failed[|failed| - 1];
      MarkFixed(failed[..|failed| - 1], account) + [if f.account == account then f.(fixedLater := true) else f]
  }

  /** Adds the amount of each posting that has one to its account's bag. */
  function PostAmounts(accounts: map<Account, map<Currency, real>>, ps: seq<Posting>): (r: map<Account, map<Currency, real>>)
    ensures accounts.Keys <= r.Keys
  {
    if ps == [] then accounts
    else
      var acc := PostAmounts(accounts, ps[..|ps| - 1]);
      var p := ps[|ps| - 1];
      if p.amount.Some? then acc[p.account := WithAmount(BagOf(acc, p.account), p.amount.value)] else acc
  }

  /** The explicit amounts posted to `a`, in posting order. */
  function AmountsTo(ps: seq<Posting>, a: Account): seq<Amount>
  {
    if ps == [] then []
    else
      var p := ps[|ps| - 1];
      AmountsTo(ps[..|ps| - 1], a) + (if p.account == a && p.amount.Some? then [p.amount.value] else [])
  }

  predicate PostsTo(ps: seq<Posting>, a: Account)
  {
    exists k :: 0 <= k < |ps| && ps[k].account == a && ps[k].amount.Some?
  }

  /**
   * Posting a transaction: an account gets a bag exactly when it had one or
   * some posting with an amount goes to it, and each of its currencies grows
   * by the sum of the amounts posted to it in that currency.
   */
  lemma PostAmountsSpec(accounts: map<Account, map<Currency, real>>, ps: seq<Posting>)
    ensures forall a :: a in PostAmounts(accounts, ps) <==> a in accounts || PostsTo(ps, a)
    ensures forall a, c ::
      Value(BagOf(PostAmounts(accounts, ps), a), c) == Value(BagOf(accounts, a), c) + SumIn(AmountsTo(ps, a), c)
  {
    PostAmountsKeys(accounts, ps);
    PostAmountsValues(accounts, ps);
  }

  /** An account gets an entry when it had one or some posting with an amount goes to it. */
  lemma {:induction false} PostAmountsKeys(accounts: map<Account, map<Currency, real>>, ps: seq<Posting>)
    ensures forall a :: a in PostAmounts(accounts, ps) <==> a in accounts || PostsTo(ps, a)
  {
    if ps != [] {
      PostAmountsKeys(accounts, ps[..|ps| - 1]);
      forall a ensures PostsTo(ps, a) <==> PostsTo(ps[..|ps| - 1], a) || (ps[|ps| - 1].account == a && ps[|ps| - 1].amount.Some?) {
        PostsToSnoc(ps, a);
      }
    }
  }

  /** Whether some posting with an amount goes to `a`, split at the last posting. */
  lemma PostsToSnoc(ps: seq<Posting>, a: Account)
    requires ps != []
    ensures PostsTo(ps, a) <==> PostsTo(ps[..|ps| - 1], a) || (ps[|ps| - 1].account == a && ps[|ps| - 1].amount.Some?)
  {
    var init := ps[..|ps| - 1];
    if PostsTo(ps, a) {
      var k :| 0 <= k < |ps| && ps[k].account == a && ps[k].amount.Some?;
      if k < |init| {
        assert init[k] == ps[k];
      }
    }
    if PostsTo(init, a) {
      var k :| 0 <= k < |init| && init[k].account == a && init[k].amount.Some?;
      assert ps[k] == init[k];
    }
  }

  /** Each currency of each account holds its old value plus the amounts posted to it in that currency. */
  lemma {:induction false} PostAmountsValues(accounts: map<Account, map<Currency, real>>, ps: seq<Posting>)
    ensures forall a, c ::
      Value(BagOf(PostAmounts(accounts, ps), a), c) == Value(BagOf(accounts, a), c) + SumIn(AmountsTo(ps, a), c)
  {
    if ps != [] {
      var init := ps[..|ps| - 1];
      var p := ps[|ps| - 1];
      PostAmountsValues(accounts, init);
      forall a, c ensures Value(BagOf(PostAmounts(accounts, ps), a), c)
        == Value(BagOf(accounts, a), c) + SumIn(AmountsTo(ps, a), c)
      {
        var extra := if p.account == a && p.amount.Some? then [p.amount.value] else [];
        SumInAppend(AmountsTo(init, a), extra, c);
      }
    }
  }


  /** One step of the checker on one directive. */
  function Step(st: CheckState, d: Directive): (r: CheckState)
    ensures Extends(st.failed, r.failed) && |r.failed| <= |st.failed| + 1
    ensures !d.content.Balance? ==> r.failed == st.failed
  {
    match d.content
    case Balance(account, amount) =>
      var x := Value(BagOf(st.accounts, account), amount.currency);
      if account in st.padded then
        st.(accounts := st.accounts[account := WithAmount(map[], amount)], padded := st.padded - {account})
      else if Abs(x - amount.value) > Tolerance then
        st.(failed := st.failed + [Failure(d.date, account, amount, x, false)])
      else
        st.(failed := MarkFixed(st.failed, account))
    case Pad(account, _) => st.(padded := st.padded + {account})
    case Txn(t) => st.(accounts := PostAmounts(st.accounts, t.postings))
    case _ => st
  }

  /** The checker run over a list of directives. */
  function Run(st: CheckState, ds: seq<Directive>): (r: CheckState)
    ensures |st.failed| <= |r.failed| <= |st.failed| + |ds|
  {
    if ds == [] then st else Step(Run(st, ds[..|ds| - 1]), ds[|ds| - 1])
  }

  /**
   * A balance assertion on an account that is not padded leaves bags and
   * pads alone; it appends a failure, carrying the computed value (0 when
   * the account or currency is absent), exactly when the difference exceeds
   * the tolerance, and otherwise marks that account's failures as fixed.
   */
  lemma StepUnpaddedBalance(st: CheckState, d: Directive)
    requires d.content.Balance? && d.content.account !in st.padded
    ensures var r := Step(st, d);
      var x := Value(BagOf(st.accounts, d.content.account), d.content.amount.currency);
      r.accounts == st.accounts && r.padded == st.padded
      && (Abs(x - d.content.amount.value) > Tolerance ==>
            r.failed == st.failed + [Failure(d.date, d.content.account, d.content.amount, x, false)])
      && (Abs(x - d.content.amount.value) <= Tolerance ==>
            r.failed == MarkFixed(st.failed, d.content.account)
            && |r.failed| == |st.failed|
            && forall k :: 0 <= k < |st.failed| ==>
              r.failed[k].fixedLater == (st.failed[k].fixedLater || st.failed[k].account == d.content.account)
              && r.failed[k].account == st.failed[k].account && r.failed[k].date == st.failed[k].date)
  {
  }

  /**
   * The first balance assertion after a pad sets the account's bag to exactly
   * the asserted amount, un-pads the account and reports nothing.
   */
  lemma StepPaddedBalance(st: CheckState, d: Directive)
    requires d.content.Balance? && d.content.account in st.padded
    ensures var r := Step(st, d);
      var a := d.content.amount;
      r.failed == st.failed
      && r.padded == st.padded - {d.content.account}
      && BagOf(r.accounts, d.content.account).Keys == {a.currency}
      && (forall c :: Value(BagOf(r.accounts, d.content.account), c) == if c == a.currency then a.value else 0.0)
      && forall other :: other != d.content.account ==> BagOf(r.accounts, other) == BagOf(st.accounts, other)
  {
  }

  /** Pads, transactions and every other kind of directive never report anything. */
  lemma StepOtherKinds(st: CheckState, d: Directive)
    requires !d.content.Balance?
    ensures Step(st, d).failed == st.failed
    ensures d.content.Pad? ==> (Step(st, d).padded == st.padded + {d.content.account}
      && Step(st, d).accounts == st.accounts)
    ensures d.content.Txn? ==> Step(st, d).padded == st.padded
    ensures d.content.Txn? ==> forall a, c ::
      Value(BagOf(Step(st, d).accounts, a), c)
        == Value(BagOf(st.accounts, a), c) + SumIn(AmountsTo(d.content.transaction.postings, a), c)
    ensures !d.content.Pad? && !d.content.Txn? ==> Step(st, d) == st
  {
    if d.content.Txn? {
      PostAmountsSpec(st.accounts, d.content.transaction.postings);
    }
  }

  /** A failure, once recorded, keeps its place and fields; it can only become fixed. */
  predicate Extends(before: seq<Failure>, after: seq<Failure>)
  {
    |before| <= |after|
    && forall k :: 0 <= k < |before| ==>
      after[k].(fixedLater := false) == before[k].(fixedLater := false)
      && (before[k].fixedLater ==> after[k].fixedLater)
  }

  lemma {:induction false} RunExtends(st: CheckState, ds: seq<Directive>)
    ensures Extends(st.failed, Run(st, ds).failed)
  {
    if ds != [] {
      RunExtends(st, ds[..|ds| - 1]);
      var mid := Run(st, ds[..|ds| - 1]);
      assert Extends(mid.failed, Step(mid, ds[|ds| - 1]).failed);
    }
  }

  /** The directives of every file of the ledger, file by file, in order. */
  function Flatten(files: seq<(string, BeancountFile)>): (r: seq<Directive>)
    reads set k | 0 <= k < |files| :: files[k].1
    ensures forall d :: d in r <==> exists k :: 0 <= k < |files| && d in files[k].1.directives
  {
    if files == [] then []
    else Flatten(files[..|files| - 1]) + files[|files| - 1].1.directives
  }

  function CheckKeys(ds: seq<Directive>): (keys: seq<SortKey>)
    ensures |keys| == |ds|
    ensures forall k :: 0 <= k < |ds| ==> keys[k] == SortKey(ds[k].date, Priority(ds[k]))
  {
    seq(|ds|, k requires 0 <= k < |ds| => SortKey(ds[k].date, Priority(ds[k])))
  }

  function Positions(n: nat): (r: seq<nat>)
    ensures |r| == n && forall k :: 0 <= k < n ==> r[k] == k
  {
    seq(n, k requires 0 <= k < n => k)
  }

  /** The positions of the directives after the stable sort by (date, priority). */
  function CheckOrder(ds: seq<Directive>): (r: seq<nat>)
    ensures InRange(CheckKeys(ds), r)
  {
    StableSort(CheckKeys(ds), Positions(|ds|))
  }

  /**
   * The sort visits every directive exactly once; dates never decrease, on
   * one date balance assertions come first, and directives that tie keep
   * their order.
   */
  lemma CheckOrderSpec(ds: seq<Directive>)
    ensures |CheckOrder(ds)| == |ds|
    ensures forall k: nat :: k < |ds| <==> k in CheckOrder(ds)
    ensures Distinct(CheckOrder(ds))
    ensures forall a, b :: 0 <= a < b < |ds| ==>
      var i, j := CheckOrder(ds)[a], CheckOrder(ds)[b];
      !DateLt(ds[j].date, ds[i].date)
      && (ds[i].date == ds[j].date ==> Priority(ds[i]) <= Priority(ds[j]))
      && (ds[i].date == ds[j].date && Priority(ds[i]) == Priority(ds[j]) ==> i < j)
  {
    CheckOrderPermutes(ds);
    CheckOrderSorted(ds);
  }

  /** The sort holds each position of the file exactly once. */
  lemma CheckOrderPermutes(ds: seq<Directive>)
    ensures |CheckOrder(ds)| == |ds|
    ensures forall k: nat :: k < |ds| <==> k in CheckOrder(ds)
    ensures Distinct(CheckOrder(ds))
  {
    var keys := CheckKeys(ds);
    var xs := Positions(|ds|);
    var r := CheckOrder(ds);
    StableSortIsStable(keys, xs);
    assert |r| == |multiset(r)| == |multiset(xs)| == |xs|;
    forall k: nat ensures k < |ds| <==> k in r {
      assert k < |ds| ==> xs[k] == k;
      assert k in r <==> k in multiset(r);
      assert k in xs <==> k in multiset(xs);
    }
    assert Distinct(xs);
    assert SortedBy(keys, r);
    forall a, b | 0 <= a < b < |r| ensures r[a] != r[b] {
      assert Precedes(keys, r[a], r[b]);
    }
  }

  /** Along the sort, dates never decrease, balances come first on a date, and ties keep file order. */
  lemma CheckOrderSorted(ds: seq<Directive>)
    ensures forall a, b :: 0 <= a < b < |CheckOrder(ds)| ==>
      var i, j := CheckOrder(ds)[a], CheckOrder(ds)[b];
      !DateLt(ds[j].date, ds[i].date)
      && (ds[i].date == ds[j].date ==> Priority(ds[i]) <= Priority(ds[j]))
      && (ds[i].date == ds[j].date && Priority(ds[i]) == Priority(ds[j]) ==> i < j)
  {
    var keys := CheckKeys(ds);
    var r := CheckOrder(ds);
    StableSortIsStable(keys, Positions(|ds|));
    forall a, b | 0 <= a < b < |r|
      ensures !DateLt(ds[r[b]].date, ds[r[a]].date)
      && (ds[r[a]].date == ds[r[b]].date ==> Priority(ds[r[a]]) <= Priority(ds[r[b]]))
      && (ds[r[a]].date == ds[r[b]].date && Priority(ds[r[a]]) == Priority(ds[r[b]]) ==> r[a] < r[b])
    {
      assert !KeyLt(keys[r[b]], keys[r[a]]);
    }
  }


  /** The directives in the order the checker visits them. */
  function Sorted(ds: seq<Directive>): (r: seq<Directive>)
    ensures |r| == |CheckOrder(ds)|
    ensures forall a :: 0 <= a < |r| ==> r[a] == ds[CheckOrder(ds)[a]]
  {
    var order := CheckOrder(ds);
    seq(|order|, a requires 0 <= a < |order| => ds[order[a]])
  }

  /** The flattening loops of `fix_balance`. */
  method CollectDirectives(files: seq<(string, BeancountFile)>) returns (directives: seq<Directive>)
    ensures directives == Flatten(files)
  {
    directives := [];
    var i := 0;
    while i < |files|
      invariant 0 <= i <= |files|
      invariant directives == Flatten(files[..i])
    {
      var file := files[i].1;
      var j := 0;
      while j < |file.directives|
        invariant 0 <= j <= |file.directives|
        invariant directives == Flatten(files[..i]) + file.directives[..j]
      {
        directives := directives + [file.directives[j]];
        j := j + 1;
      }
      assert files[..i + 1][..i] == files[..i];
      assert file.directives[..j] == file.directives;
      i := i + 1;
    }
    assert files[..i] == files;
  }

  /** The loop over `failed` that flags the failures of one account as fixed. */
  method MarkFixedInPlace(failed: seq<Failure>, account: Account) returns (r: seq<Failure>)
    ensures r == MarkFixed(failed, account)
  {
    r := failed;
    var k := 0;
    while k < |r|
      invariant 0 <= k <= |r| == |failed|
      invariant forall j :: 0 <= j < k ==>
        r[j] == failed[j].(fixedLater := failed[j].fixedLater || failed[j].account == account)
      invariant forall j :: k <= j < |r| ==> r[j] == failed[j]
    {
      if r[k].account == account {
        r := r[k := r[k].(fixedLater := true)];
      }
      k := k + 1;
    }
    assert r == MarkFixed(failed, account);
  }

  /** The loop over a transaction's postings that feeds the account bags. */
  method PostInPlace(accounts: map<Account, map<Currency, real>>, ps: seq<Posting>)
    returns (r: map<Account, map<Currency, real>>)
    ensures r == PostAmounts(accounts, ps)
  {
    r := accounts;
    var k := 0;
    while k < |ps|
      invariant 0 <= k <= |ps|
      invariant r == PostAmounts(accounts, ps[..k])
    {
      var p := ps[k];
      assert ps[..k + 1][..k] == ps[..k];
      if p.amount.Some? {
        var bag := if p.account in r then r[p.account] else map[];
        r := r[p.account := WithAmount(bag, p.amount.value)];
      }
      k := k + 1;
    }
    assert ps[..k] == ps;
  }

  /** The body of the main loop of `fix_balance`, on one directive. */
  method CheckDirective(accounts: map<Account, map<Currency, real>>, padded: set<Account>, failed: seq<Failure>, d: Directive)
    returns (accounts': map<Account, map<Currency, real>>, padded': set<Account>, failed': seq<Failure>)
    ensures CheckState(accounts', padded', failed') == Step(CheckState(accounts, padded, failed), d)
  {
    accounts', padded', failed' := accounts, padded, failed;
    match d.content {
      case Balance(account, amount) =>
        var bag := if account in accounts then accounts[account] else map[];
        var x := if amount.currency in bag then bag[amount.currency] else 0.0;
        var y := x - amount.value;
        if y < 0.0 {
          y := -y;
        }
        if account in padded {
          accounts' := accounts[account := WithAmount(map[], amount)];
          padded' := padded - {account};
        } else if y > Tolerance {
          failed' := failed + [Failure(d.date, account, amount, x, false)];
        } else {
          failed' := MarkFixedInPlace(failed, account);
        }
      case Pad(account, _) =>
        padded' := padded + {account};
      case Txn(t) =>
        accounts' := PostInPlace(accounts, t.postings);
      case _ =>
    }
  }

  /**
   * `fix_balance`: flattens the ledger, sorts it, runs the checker and
   * returns the failure list (the source prints one line per entry).
   */
  method FixBalance(ledger: Ledger) returns (report: seq<Failure>)
    ensures report == Run(Start, Sorted(Flatten(ledger.files))).failed
  {
    var directives := CollectDirectives(ledger.files);
    assert directives == Flatten(ledger.files);
    var order := CheckOrder(directives);
    ghost var sorted := Sorted(directives);
    var accounts: map<Account, map<Currency, real>> := map[];
    var padded: set<Account> := {};
    var failed: seq<Failure> := [];
    var n := 0;
    assert sorted[..0] == [];
    while n < |order|
      invariant 0 <= n <= |order| == |sorted|
      invariant forall k :: 0 <= k < |ledger.files| ==> ledger.files[k].1.directives == old(ledger.files[k].1.directives)
      invariant directives == Flatten(ledger.files)
      invariant CheckState(accounts, padded, failed) == Run(Start, sorted[..n])
    {
      var d := directives[order[n]];
      assert sorted[n] == d;
      assert sorted[..n + 1][..n] == sorted[..n];
      assert Run(Start, sorted[..n + 1]) == Step(Run(Start, sorted[..n]), d);
      accounts, padded, failed := CheckDirective(accounts, padded, failed, d);
      n := n + 1;
    }
    assert sorted[..n] == sorted;
    assert Flatten(ledger.files) == directives;
    assert sorted == Sorted(Flatten(ledger.files));
    report := failed;
  }
}
