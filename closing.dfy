/**
 * The closing matcher: transactions that post to the clearing account
 * `Assets:Closing` are paired greedily (same date, clearing amounts that are
 * exact negatives in one currency); both clearing legs of a pair are renamed
 * to a fresh `Assets:Closing:NNNNNN` account, and an Open and a zero Balance
 * directive are appended for every pair.
 */
module Closing {
  import opened Wrappers
  import opened Types
  import opened Text
  import opened Ordering

  const ClearingAccount := Account("Assets:Closing")

  const ClosingPrefix := "Assets:Closing:"

  /** The account a match with counter value `id` is moved to. */
  function ClosingAccountName(id: nat): (a: Account)
    ensures a != ClearingAccount
    ensures |a.name| >= |ClosingPrefix| + 6 && a.name[..|ClosingPrefix|] == ClosingPrefix
  {
    Account(ClosingPrefix + ZeroPad(id, 6))
  }

  /** Distinct counter values give distinct account names. */
  lemma ClosingAccountNameInjective(a: nat, b: nat)
    requires ClosingAccountName(a) == ClosingAccountName(b)
    ensures a == b
  {
    assert ZeroPad(a, 6) == ClosingAccountName(a).name[|ClosingPrefix|..];
    assert ZeroPad(b, 6) == ClosingAccountName(b).name[|ClosingPrefix|..];
    ZeroPadInjective(a, b, 6);
  }

  /** Position of the first posting on the clearing account, if any. */
  function FirstClearing(ps: seq<Posting>): (r: Option<nat>)
    ensures r.Some? ==> r.value < |ps| && ps[r.value].account == ClearingAccount
    ensures r.Some? ==> forall q :: 0 <= q < r.value ==> ps[q].account != ClearingAccount
    ensures r.None? ==> forall q :: 0 <= q < |ps| ==> ps[q].account != ClearingAccount
  {
    if ps == [] then None
    else if ps[0].account == ClearingAccount then Some(0)
    else match FirstClearing(ps[1..]) {
      case None => None
      case Some(k) => Some(k + 1)
    }
  }

  /**
   * `closing_posting`: the first clearing posting of a transaction (the
   * source panics on any other directive kind).
   */
  function ClosingPosting(d: Directive): (r: Option<nat>)
    requires d.content.Txn?
    ensures r.Some? ==> r.value < |d.content.transaction.postings|
    ensures r.Some? ==> d.content.transaction.postings[r.value].account == ClearingAccount
    ensures r.Some? ==> forall q :: 0 <= q < r.value ==> d.content.transaction.postings[q].account != ClearingAccount
    ensures r.None? ==> forall q :: 0 <= q < |d.content.transaction.postings| ==>
      d.content.transaction.postings[q].account != ClearingAccount
  {
    FirstClearing(d.content.transaction.postings)
  }

  /** `contains_closing_posting`: a transaction with a posting on the clearing account. */
  predicate ContainsClosingPosting(d: Directive)
    ensures ContainsClosingPosting(d) ==> d.content.Txn? && d.content.transaction.postings != []
  {
    d.content.Txn?
    && exists q :: 0 <= q < |d.content.transaction.postings| && d.content.transaction.postings[q].account == ClearingAccount
  }

  /** A directive is a candidate exactly when `closing_posting` finds something in it. */
  lemma ContainsIffClosingPosting(d: Directive)
    ensures ContainsClosingPosting(d) <==> d.content.Txn? && ClosingPosting(d).Some?
  {
    if d.content.Txn? && ClosingPosting(d).Some? {
      var q := ClosingPosting(d).value;
      assert d.content.transaction.postings[q].account == ClearingAccount;
    }
  }

  /** The positions of the candidates, in file order (the source's `filter`). */
  function Candidates(ds: seq<Directive>): (r: seq<nat>)
    ensures Ascending(r)
    ensures forall k: nat :: k in r <==> k < |ds| && ContainsClosingPosting(ds[k])
  {
    if ds == [] then []
    else
      var init := Candidates(ds[..|ds| - 1]);
      assert forall a :: 0 <= a < |init| ==> init[a] in init;
      if ContainsClosingPosting(ds[|ds| - 1]) then init + [|ds| - 1] else init
  }

  /** Every directive is keyed by its date alone. */
  function DateKeys(ds: seq<Directive>): (keys: seq<SortKey>)
    ensures |keys| == |ds|
    ensures forall k :: 0 <= k < |ds| ==> keys[k] == SortKey(ds[k].date, 0)
  {
    seq(|ds|, k requires 0 <= k < |ds| => SortKey(ds[k].date, 0))
  }

  /** The candidates after the stable `sort_by_key` on the date. */
  function ClosingOrder(ds: seq<Directive>): (r: seq<nat>)
    ensures multiset(r) == multiset(Candidates(ds))
    ensures forall a :: 0 <= a < |r| ==> r[a] < |ds|
  {
    assert InRange(DateKeys(ds), Candidates(ds)) by {
      forall k | 0 <= k < |Candidates(ds)| ensures Candidates(ds)[k] < |ds| {
        assert Candidates(ds)[k] in Candidates(ds);
      }
    }
    StableSort(DateKeys(ds), Candidates(ds))
  }

  /**
   * The visiting order holds every candidate exactly once, dates never
   * decrease along it, and candidates of one date keep their file order.
   */
  lemma ClosingOrderSpec(ds: seq<Directive>)
    ensures forall k: nat :: k in ClosingOrder(ds) <==> k < |ds| && ContainsClosingPosting(ds[k])
    ensures Distinct(ClosingOrder(ds))
    ensures forall a, b :: 0 <= a < b < |ClosingOrder(ds)| ==>
      ClosingOrder(ds)[b] < |ds| && ClosingOrder(ds)[a] < |ds|
      && !DateLt(ds[ClosingOrder(ds)[b]].date, ds[ClosingOrder(ds)[a]].date)
      && (ds[ClosingOrder(ds)[a]].date == ds[ClosingOrder(ds)[b]].date ==> ClosingOrder(ds)[a] < ClosingOrder(ds)[b])
  {
    var keys := DateKeys(ds);
    var xs := Candidates(ds);
    var r := ClosingOrder(ds);
    assert InRange(keys, xs) by {
      forall k | 0 <= k < |xs| ensures xs[k] < |ds| {
        assert xs[k] in xs;
      }
    }
    StableSortIsStable(keys, xs);
    forall k: nat ensures k in r <==> k in xs {
      assert k in r <==> k in multiset(r);
      assert k in xs <==> k in multiset(xs);
    }
    assert Distinct(xs);
    assert SortedBy(keys, r);
    forall a, b | 0 <= a < b < |r| ensures r[a] != r[b] {
      assert Precedes(keys, r[a], r[b]);
    }
  }

  /**
   * Any two visits of the matcher's loops, `a` before `b`: both are
   * candidates, and same-date ones come in file order.
   */
  predicate VisitsInOrder(ds: seq<Directive>, order: seq<nat>)
  {
    forall a, b :: 0 <= a < b < |order| ==>
      order[a] < |ds| && ContainsClosingPosting(ds[order[a]])
      && order[b] < |ds| && ContainsClosingPosting(ds[order[b]])
      && (ds[order[a]].date == ds[order[b]].date ==> order[a] < order[b])
  }

  /** The visiting order of `closing` has the shape `VisitsInOrder` asks for. */
  lemma ClosingOrderPair(ds: seq<Directive>)
    ensures VisitsInOrder(ds, ClosingOrder(ds))
    ensures VisitsTransactions(ds, ClosingOrder(ds))
  {
    ClosingOrderSpec(ds);
    var r := ClosingOrder(ds);
    forall k | 0 <= k < |r| ensures r[k] < |ds| && ds[r[k]].content.Txn? {
      assert r[k] in r;
    }
    forall a, b | 0 <= a < b < |r|
      ensures r[a] < |ds| && ContainsClosingPosting(ds[r[a]]) && r[b] < |ds| && ContainsClosingPosting(ds[r[b]])
    {
      assert r[a] in r && r[b] in r;
    }
  }

  /** A posting position: directive index in the file, posting index in it. */
  datatype Slot = Slot(directive: nat, posting: nat)

  /** One pair found by the matcher, with the account both legs now post to. */
  datatype Match = Match(first: Slot, second: Slot, account: Account, currency: Currency)

  predicate IsPostingSlot(ds: seq<Directive>, s: Slot)
  {
    s.directive < |ds| && ds[s.directive].content.Txn?
    && s.posting < |ds[s.directive].content.transaction.postings|
  }

  function PostingAt(ds: seq<Directive>, s: Slot): Posting
    requires IsPostingSlot(ds, s)
  {
    ds[s.directive].content.transaction.postings[s.posting]
  }

  /**
   * What the `t`-th match promises about the original directives: two
   * transactions of the same date, the earlier one in file order first, whose
   * legs are on the clearing account with explicit amounts that are exact
   * negatives in the match's currency; the account is the `t`-th closing name.
   */
  predicate ValidMatch(ds: seq<Directive>, ms: seq<Match>, t: nat)
    requires t < |ms|
  {
    var m := ms[t];
    IsPostingSlot(ds, m.first) && IsPostingSlot(ds, m.second)
    && m.first.directive < m.second.directive
    && ds[m.first.directive].date == ds[m.second.directive].date
    && PostingAt(ds, m.first).account == ClearingAccount
    && PostingAt(ds, m.second).account == ClearingAccount
    && PostingAt(ds, m.first).amount.Some?
    && PostingAt(ds, m.second).amount.Some?
    && PostingAt(ds, m.first).amount.value.currency == m.currency
    && PostingAt(ds, m.second).amount.value.currency == m.currency
    && PostingAt(ds, m.first).amount.value.value == -PostingAt(ds, m.second).amount.value.value
    && m.account == ClosingAccountName(t)
  }

  predicate InMatch(m: Match, s: Slot)
  {
    s == m.first || s == m.second
  }

  /** No posting belongs to two matches, and the legs of a match differ. */
  predicate SlotsDistinct(ms: seq<Match>)
  {
    (forall t :: 0 <= t < |ms| ==> ms[t].first != ms[t].second)
    && forall t1, t2 :: 0 <= t1 < t2 < |ms| ==>
      !InMatch(ms[t2], ms[t1].first) && !InMatch(ms[t2], ms[t1].second)
  }

  /** The account a posting was moved to by the matches, if any. */
  function RenameOf(ms: seq<Match>, s: Slot): (r: Option<Account>)
    ensures r.None? <==> forall t :: 0 <= t < |ms| ==> !InMatch(ms[t], s)
    ensures r.Some? ==> exists t :: 0 <= t < |ms| && InMatch(ms[t], s) && r.value == ms[t].account
  {
    if ms == [] then None
    else if InMatch(ms[|ms| - 1], s) then Some(ms[|ms| - 1].account)
    else RenameOf(ms[..|ms| - 1], s)
  }

  /** Each leg of a match, among pairwise disjoint matches, is moved to that match's account. */
  lemma {:induction false} RenameOfMatch(ms: seq<Match>, t: nat, s: Slot)
    requires t < |ms| && SlotsDistinct(ms) && InMatch(ms[t], s)
    ensures RenameOf(ms, s) == Some(ms[t].account)
  {
    if t < |ms| - 1 {
      assert !InMatch(ms[|ms| - 1], s);
      var init := ms[..|ms| - 1];
      assert init[t] == ms[t];
      RenameOfMatch(init, t, s);
    }
  }

  /** A directive with its clearing postings renamed as the matches say. */
  function Renamed(d: Directive, k: nat, ms: seq<Match>): (r: Directive)
    ensures r.date == d.date && r.metadata == d.metadata
    ensures r.content.Txn? <==> d.content.Txn?
    ensures !d.content.Txn? ==> r == d
  {
    match d.content
    case Txn(t) =>
      var ps := seq(|t.postings|, p requires 0 <= p < |t.postings| =>
        match RenameOf(ms, Slot(k, p))
        case Some(a) => t.postings[p].(account := a)
        case None => t.postings[p]);
      d.(content := Txn(t.(postings := ps)))
    case _ => d
  }

  function RenameAll(ds: seq<Directive>, ms: seq<Match>): (r: seq<Directive>)
    ensures |r| == |ds|
  {
    seq(|ds|, k requires 0 <= k < |ds| => Renamed(ds[k], k, ms))
  }

  /** The in-place rename of one posting's account. */
  function SetAccount(d: Directive, p: nat, a: Account): Directive
    requires d.content.Txn? && p < |d.content.transaction.postings|
  {
    var t := d.content.transaction;
    d.(content := Txn(t.(postings := t.postings[p := t.postings[p].(account := a)])))
  }

  /** Recording one more match changes only the two directives it touches, one posting each. */
  lemma RenamedExtend(d: Directive, k: nat, ms: seq<Match>, m: Match)
    requires m.first.directive != m.second.directive
    ensures k != m.first.directive && k != m.second.directive ==>
      Renamed(d, k, ms + [m]) == Renamed(d, k, ms)
    ensures d.content.Txn? && k == m.first.directive && m.first.posting < |d.content.transaction.postings| ==>
      Renamed(d, k, ms + [m]) == SetAccount(Renamed(d, k, ms), m.first.posting, m.account)
    ensures d.content.Txn? && k == m.second.directive && m.second.posting < |d.content.transaction.postings| ==>
      Renamed(d, k, ms + [m]) == SetAccount(Renamed(d, k, ms), m.second.posting, m.account)
  {
    assert (ms + [m])[..|ms|] == ms;
    if d.content.Txn? {
      var ps := d.content.transaction.postings;
      var r1 := Renamed(d, k, ms + [m]).content.transaction.postings;
      var r0 := Renamed(d, k, ms).content.transaction.postings;
      if k != m.first.directive && k != m.second.directive {
        assert r1 == r0;
      }
      if k == m.first.directive && m.first.posting < |ps| {
        assert r1 == r0[m.first.posting := r0[m.first.posting].(account := m.account)];
      }
      if k == m.second.directive && m.second.posting < |ps| {
        assert r1 == r0[m.second.posting := r0[m.second.posting].(account := m.account)];
      }
    }
  }

  /**
   * After the matcher, part one: a directive that is not a candidate is
   * unchanged.
   */
  lemma RenameAllNonCandidates(ds: seq<Directive>, ms: seq<Match>)
    requires forall t :: 0 <= t < |ms| ==> ValidMatch(ds, ms, t)
    ensures forall k :: 0 <= k < |ds| && !ContainsClosingPosting(ds[k]) ==> RenameAll(ds, ms)[k] == ds[k]
  {
    var r := RenameAll(ds, ms);
    forall k | 0 <= k < |ds| && !ContainsClosingPosting(ds[k]) ensures r[k] == ds[k] {
      if ds[k].content.Txn? {
        var ps := ds[k].content.transaction.postings;
        var rs := r[k].content.transaction.postings;
        forall p | 0 <= p < |ps| ensures rs[p] == ps[p] {
          assert ps[p].account != ClearingAccount;
          RenameOfOnlyLegs(ds, ms, Slot(k, p));
        }
        assert rs == ps;
      }
    }
  }

  /**
   * After the matcher, part two: a posting that is no leg of any match is
   * unchanged; the legs of match `t` differ from the original only in their
   * account, which is that of match `t`.
   */
  lemma RenameAllLegs(ds: seq<Directive>, ms: seq<Match>)
    requires SlotsDistinct(ms)
    requires forall t :: 0 <= t < |ms| ==> ValidMatch(ds, ms, t)
    ensures forall s :: IsPostingSlot(ds, s) ==> IsPostingSlot(RenameAll(ds, ms), s)
    ensures forall s :: IsPostingSlot(ds, s) && (forall t :: 0 <= t < |ms| ==> !InMatch(ms[t], s)) ==>
      PostingAt(RenameAll(ds, ms), s) == PostingAt(ds, s)
    ensures forall t, s :: 0 <= t < |ms| && InMatch(ms[t], s) ==>
      IsPostingSlot(RenameAll(ds, ms), s)
      && PostingAt(RenameAll(ds, ms), s) == PostingAt(ds, s).(account := ClosingAccountName(t))
  {
    var r := RenameAll(ds, ms);
    forall t, s | 0 <= t < |ms| && InMatch(ms[t], s)
      ensures IsPostingSlot(r, s) && PostingAt(r, s) == PostingAt(ds, s).(account := ClosingAccountName(t))
    {
      assert ValidMatch(ds, ms, t);
      RenameOfMatch(ms, t, s);
    }
  }

  /** Distinct matches move their legs to distinct accounts. */
  lemma MatchAccountsDistinct(ds: seq<Directive>, ms: seq<Match>, t1: nat, t2: nat)
    requires t1 < |ms| && t2 < |ms| && t1 != t2
    requires ValidMatch(ds, ms, t1) && ValidMatch(ds, ms, t2)
    ensures ms[t1].account != ms[t2].account
  {
    if ms[t1].account == ms[t2].account {
      ClosingAccountNameInjective(t1, t2);
    }
  }

  function OpenFor(m: Match): Directive
  {
    Directive(Date(2000, 1, 1), Open(m.account, {m.currency}), map[])
  }

  function BalanceFor(m: Match): Directive
  {
    Directive(Date(2099, 1, 1), Balance(m.account, Amount(0.0, m.currency)), map[])
  }

  /**
   * The directives appended after the matching: for each match, in match
   * order, an Open of its account on 2000-01-01 restricted to its currency,
   * then a zero Balance of it on 2099-01-01.
   */
  function SupportingDirectives(ms: seq<Match>): (r: seq<Directive>)
    ensures |r| == 2 * |ms|
    ensures forall t :: 0 <= t < |ms| ==>
      r[2 * t] == Directive(Date(2000, 1, 1), Open(ms[t].account, {ms[t].currency}), map[])
      && r[2 * t + 1] == Directive(Date(2099, 1, 1), Balance(ms[t].account, Amount(0.0, ms[t].currency)), map[])
  {
    if ms == [] then []
    else SupportingDirectives(ms[..|ms| - 1]) + [OpenFor(ms[|ms| - 1]), BalanceFor(ms[|ms| - 1])]
  }

  /**
   * The matcher's loop state: the current directives are the originals
   * renamed by the matches so far, and every match so far is valid.
   */
  predicate Tracks(ds0: seq<Directive>, cur: seq<Directive>, ms: seq<Match>)
  {
    |cur| == |ds0|
    && (forall k :: 0 <= k < |ds0| ==> cur[k] == Renamed(ds0[k], k, ms))
    && (forall t :: 0 <= t < |ms| ==> ValidMatch(ds0, ms, t))
    && SlotsDistinct(ms)
  }

  /** A renamed posting lies on the clearing account originally and not after the rename. */
  lemma RenameOfOnlyLegs(ds0: seq<Directive>, ms: seq<Match>, s: Slot)
    requires forall t :: 0 <= t < |ms| ==> ValidMatch(ds0, ms, t)
    ensures RenameOf(ms, s).Some? ==>
      IsPostingSlot(ds0, s) && PostingAt(ds0, s).account == ClearingAccount
      && RenameOf(ms, s).value != ClearingAccount
  {
    if RenameOf(ms, s).Some? {
      var t :| 0 <= t < |ms| && InMatch(ms[t], s) && RenameOf(ms, s).value == ms[t].account;
      assert ValidMatch(ds0, ms, t);
    }
  }

  /**
   * A clearing posting the matcher still finds on the clearing account was
   * never renamed: it is no leg of an earlier match and is the original
   * posting.
   */
  lemma UnrenamedLeg(ds0: seq<Directive>, ms: seq<Match>, k: nat, p: nat, cur: Directive)
    requires k < |ds0| && cur == Renamed(ds0[k], k, ms)
    requires forall t :: 0 <= t < |ms| ==> ValidMatch(ds0, ms, t)
    requires cur.content.Txn? && p < |cur.content.transaction.postings|
    requires cur.content.transaction.postings[p].account == ClearingAccount
    ensures IsPostingSlot(ds0, Slot(k, p))
    ensures forall t :: 0 <= t < |ms| ==> !InMatch(ms[t], Slot(k, p))
    ensures PostingAt(ds0, Slot(k, p)) == cur.content.transaction.postings[p]
  {
    RenameOfOnlyLegs(ds0, ms, Slot(k, p));
  }

  /** Recording a pair of unrenamed legs keeps the loop state. */
  lemma {:induction false} TracksExtend(ds0: seq<Directive>, cur: seq<Directive>, ms: seq<Match>, m: Match)
    requires Tracks(ds0, cur, ms)
    requires m.first.directive < m.second.directive < |cur|
    requires cur[m.first.directive].content.Txn? && cur[m.second.directive].content.Txn?
    requires m.first.posting < |cur[m.first.directive].content.transaction.postings|
    requires m.second.posting < |cur[m.second.directive].content.transaction.postings|
    requires ds0[m.first.directive].date == ds0[m.second.directive].date
    requires cur[m.first.directive].content.transaction.postings[m.first.posting].account == ClearingAccount
    requires cur[m.second.directive].content.transaction.postings[m.second.posting].account == ClearingAccount
    requires var a1 := cur[m.first.directive].content.transaction.postings[m.first.posting].amount;
      var a2 := cur[m.second.directive].content.transaction.postings[m.second.posting].amount;
      a1.Some? && a2.Some? && a1.value.currency == m.currency && a2.value.currency == m.currency
      && a1.value.value == -a2.value.value
    requires m.account == ClosingAccountName(|ms|)
    ensures Tracks(ds0, cur[m.first.directive := SetAccount(cur[m.first.directive], m.first.posting, m.account)]
                         [m.second.directive := SetAccount(cur[m.second.directive], m.second.posting, m.account)],
                   ms + [m])
  {
    var ci, cj := m.first.directive, m.second.directive;
    UnrenamedLeg(ds0, ms, ci, m.first.posting, cur[ci]);
    UnrenamedLeg(ds0, ms, cj, m.second.posting, cur[cj]);
    var next := cur[ci := SetAccount(cur[ci], m.first.posting, m.account)]
                   [cj := SetAccount(cur[cj], m.second.posting, m.account)];
    var ms' := ms + [m];
    RenameStateExtend(ds0, cur, ms, m);
    SlotsDistinctExtend(ms, m);
    assert ValidMatch(ds0, ms', |ms|);
    ValidMatchesExtend(ds0, ms, m);
  }

  /** Renaming the two legs in place gives the originals renamed by one more match. */
  lemma RenameStateExtend(ds0: seq<Directive>, cur: seq<Directive>, ms: seq<Match>, m: Match)
    requires |cur| == |ds0| && forall k :: 0 <= k < |ds0| ==> cur[k] == Renamed(ds0[k], k, ms)
    requires m.first.directive < m.second.directive < |cur|
    requires cur[m.first.directive].content.Txn? && cur[m.second.directive].content.Txn?
    requires m.first.posting < |cur[m.first.directive].content.transaction.postings|
    requires m.second.posting < |cur[m.second.directive].content.transaction.postings|
    ensures var next := cur[m.first.directive := SetAccount(cur[m.first.directive], m.first.posting, m.account)]
                           [m.second.directive := SetAccount(cur[m.second.directive], m.second.posting, m.account)];
      forall k :: 0 <= k < |ds0| ==> next[k] == Renamed(ds0[k], k, ms + [m])
  {
    var ci, cj := m.first.directive, m.second.directive;
    var next := cur[ci := SetAccount(cur[ci], m.first.posting, m.account)]
                   [cj := SetAccount(cur[cj], m.second.posting, m.account)];
    forall k | 0 <= k < |ds0| ensures next[k] == Renamed(ds0[k], k, ms + [m]) {
      RenamedExtend(ds0[k], k, ms, m);
    }
  }

  /** A match whose legs differ and belong to no earlier match keeps the legs pairwise distinct. */
  lemma SlotsDistinctExtend(ms: seq<Match>, m: Match)
    requires SlotsDistinct(ms) && m.first != m.second
    requires forall t :: 0 <= t < |ms| ==> !InMatch(ms[t], m.first) && !InMatch(ms[t], m.second)
    ensures SlotsDistinct(ms + [m])
  {
    var ms' := ms + [m];
    forall t1, t2 | 0 <= t1 < t2 < |ms'| ensures !InMatch(ms'[t2], ms'[t1].first) && !InMatch(ms'[t2], ms'[t1].second) {
      if t2 < |ms| {
        assert ms'[t1] == ms[t1] && ms'[t2] == ms[t2];
      } else {
        assert ms'[t1] == ms[t1] && ms'[t2] == m;
      }
    }
    forall t | 0 <= t < |ms'| ensures ms'[t].first != ms'[t].second {
      if t < |ms| {
        assert ms'[t] == ms[t];
      }
    }
  }

  /** Appending a match that is valid in its place keeps every earlier match valid. */
  lemma ValidMatchesExtend(ds0: seq<Directive>, ms: seq<Match>, m: Match)
    requires forall t :: 0 <= t < |ms| ==> ValidMatch(ds0, ms, t)
    requires ValidMatch(ds0, ms + [m], |ms|)
    ensures forall t :: 0 <= t < |ms + [m]| ==> ValidMatch(ds0, ms + [m], t)
  {
    forall t | 0 <= t < |ms + [m]| ensures ValidMatch(ds0, ms + [m], t) {
      if t < |ms| {
        assert (ms + [m])[t] == ms[t];
        assert ValidMatch(ds0, ms, t);
      }
    }
  }

  /**
   * One visit `(ci, cj)` of the matcher's loops on the current directives:
   * when the two share a date, the first clearing posting of each carries an
   * explicit amount, and the two amounts are in one currency and cancel, the
   * pair is recorded and both legs move to the next closing account;
   * otherwise nothing changes.
   */
  function MatchStep(cur: seq<Directive>, ms: seq<Match>, ci: nat, cj: nat): (r: (seq<Directive>, seq<Match>))
    requires ci < |cur| && cur[ci].content.Txn? && cj < |cur| && cur[cj].content.Txn?
    ensures |r.0| == |cur|
    ensures forall k :: 0 <= k < |cur| ==> (r.0[k].content.Txn? <==> cur[k].content.Txn?)
    ensures r.1 == ms || (|r.1| == |ms| + 1 && r.1[..|ms|] == ms && r.1[|ms|].account == ClosingAccountName(|ms|))
  {
    if cur[ci].date != cur[cj].date then (cur, ms)
    else match (ClosingPosting(cur[ci]), ClosingPosting(cur[cj]))
      case (Some(p1), Some(p2)) =>
        var a1 := cur[ci].content.transaction.postings[p1].amount;
        var a2 := cur[cj].content.transaction.postings[p2].amount;
        if a1.Some? && a2.Some? && a1.value.currency == a2.value.currency && a1.value.value == -a2.value.value then
          var account := ClosingAccountName(|ms|);
          var next := cur[ci := SetAccount(cur[ci], p1, account)];
          var ms' := ms + [Match(Slot(ci, p1), Slot(cj, p2), account, a1.value.currency)];
          assert ms'[..|ms|] == ms;
          (next[cj := SetAccount(next[cj], p2, account)], ms')
        else (cur, ms)
      case _ => (cur, ms)
  }

  /** Every visited position is a transaction of the current directives. */
  predicate VisitsTransactions(cur: seq<Directive>, order: seq<nat>)
  {
    forall k :: 0 <= k < |order| ==> order[k] < |cur| && cur[order[k]].content.Txn?
  }

  /**
   * The rest of the matcher's inner loop from visit `(i, j)` on: candidate
   * `i` against each later candidate `j`, `j + 1`, ...
   */
  function Sweep(cur: seq<Directive>, ms: seq<Match>, order: seq<nat>, i: nat, j: nat): (r: (seq<Directive>, seq<Match>))
    requires VisitsTransactions(cur, order) && i < |order|
    ensures |r.0| == |cur| && VisitsTransactions(r.0, order)
    ensures |r.1| >= |ms| && r.1[..|ms|] == ms
    decreases |order| - j
  {
    if j >= |order| then (cur, ms)
    else
      var step := MatchStep(cur, ms, order[i], order[j]);
      var r := Sweep(step.0, step.1, order, i, j + 1);
      assert r.1[..|ms|] == r.1[..|step.1|][..|ms|];
      r
  }

  /** The matcher's outer loop from visit `i` on: a `Sweep` per visited candidate. */
  function Pass(cur: seq<Directive>, ms: seq<Match>, order: seq<nat>, i: nat): (r: (seq<Directive>, seq<Match>))
    requires VisitsTransactions(cur, order)
    ensures |r.0| == |cur| && |r.1| >= |ms| && r.1[..|ms|] == ms
    decreases |order| - i
  {
    if i >= |order| then (cur, ms)
    else
      var swept := Sweep(cur, ms, order, i, i + 1);
      var r := Pass(swept.0, swept.1, order, i + 1);
      assert r.1[..|ms|] == r.1[..|swept.1|][..|ms|];
      r
  }

  /** One visit of the inner loop is one `MatchStep`, and the loop goes on with the next `j`. */
  lemma SweepStep(cur: seq<Directive>, ms: seq<Match>, order: seq<nat>, i: nat, j: nat)
    requires VisitsTransactions(cur, order) && i < |order| && j < |order|
    ensures VisitsTransactions(MatchStep(cur, ms, order[i], order[j]).0, order)
    ensures Sweep(cur, ms, order, i, j)
      == Sweep(MatchStep(cur, ms, order[i], order[j]).0, MatchStep(cur, ms, order[i], order[j]).1, order, i, j + 1)
  {
  }

  /**
   * The whole greedy matching of a file: the directives with the matched
   * legs renamed, and the matches in the order they were found.
   */
  function ClosingSpec(ds: seq<Directive>): (r: (seq<Directive>, seq<Match>))
    ensures |r.0| == |ds|
  {
    ClosingOrderSpec(ds);
    Pass(ds, [], ClosingOrder(ds), 0)
  }

  /**
   * `closing`: pairs the candidates greedily in date order and renames both
   * clearing legs of each pair; returns the pairs (the source prints them).
   */
  method Closing(file: BeancountFile) returns (matches: seq<Match>)
    modifies file
    ensures matches == ClosingSpec(old(file.directives)).1
    ensures file.directives == ClosingSpec(old(file.directives)).0 + SupportingDirectives(matches)
    ensures SlotsDistinct(matches)
    ensures forall t :: 0 <= t < |matches| ==> ValidMatch(old(file.directives), matches, t)
    ensures file.directives == RenameAll(old(file.directives), matches) + SupportingDirectives(matches)
  {
    ghost var ds0 := file.directives;
    var order := ClosingOrder(file.directives);
    ClosingOrderPair(ds0);
    ghost var finalD, finalM := ClosingSpec(ds0).0, ClosingSpec(ds0).1;
    var closingId := 0;
    matches := [];
    TracksStart(ds0);
    var i := 0;
    while i < |order|
      invariant 0 <= i <= |order|
      invariant closingId == |matches|
      invariant Tracks(ds0, file.directives, matches)
      invariant VisitsTransactions(file.directives, order)
      invariant Pass(file.directives, matches, order, i).0 == finalD
      invariant Pass(file.directives, matches, order, i).1 == finalM
    {
      closingId, matches := MatchWithLater(file, ds0, order, i, closingId, matches);
      i := i + 1;
    }
    assert file.directives == RenameAll(ds0, matches);
    AppendSupporting(file, matches);
  }

  /** Before the first match nothing is renamed. */
  lemma TracksStart(ds: seq<Directive>)
    ensures Tracks(ds, ds, [])
  {
    forall k | 0 <= k < |ds| ensures Renamed(ds[k], k, []) == ds[k] {
      if ds[k].content.Txn? {
        var t := ds[k].content.transaction;
        var rs := Renamed(ds[k], k, []).content.transaction.postings;
        assert forall p :: 0 <= p < |t.postings| ==> rs[p] == t.postings[p];
        assert rs == t.postings;
      }
    }
  }

  /** The inner loop of `closing`: the candidate visited `i`-th against every later one. */
  method MatchWithLater(file: BeancountFile, ghost ds0: seq<Directive>, order: seq<nat>, i: nat,
                        closingId: nat, matches: seq<Match>)
    returns (closingId': nat, matches': seq<Match>)
    modifies file
    requires VisitsInOrder(ds0, order) && i < |order|
    requires closingId == |matches| && Tracks(ds0, file.directives, matches)
    requires VisitsTransactions(file.directives, order)
    ensures closingId' == |matches'| && Tracks(ds0, file.directives, matches')
    ensures VisitsTransactions(file.directives, order)
    ensures file.directives == Sweep(old(file.directives), matches, order, i, i + 1).0
    ensures matches' == Sweep(old(file.directives), matches, order, i, i + 1).1
  {
    ghost var restD, restM := Sweep(file.directives, matches, order, i, i + 1).0, Sweep(file.directives, matches, order, i, i + 1).1;
    closingId', matches' := closingId, matches;
    var j := i + 1;
    while j < |order|
      invariant i + 1 <= j <= |order|
      invariant closingId' == |matches'|
      invariant Tracks(ds0, file.directives, matches')
      invariant VisitsTransactions(file.directives, order)
      invariant Sweep(file.directives, matches', order, i, j).0 == restD
      invariant Sweep(file.directives, matches', order, i, j).1 == restM
    {
      closingId', matches' := Visit(file, ds0, order, i, j, closingId', matches');
      j := j + 1;
    }
  }

  /** One visit `(i, j)` of the nested loops of `closing`: a `TryMatch` of the two candidates. */
  method Visit(file: BeancountFile, ghost ds0: seq<Directive>, order: seq<nat>, i: nat, j: nat,
               closingId: nat, matches: seq<Match>)
    returns (closingId': nat, matches': seq<Match>)
    modifies file
    requires VisitsInOrder(ds0, order) && i < j < |order|
    requires closingId == |matches| && Tracks(ds0, file.directives, matches)
    requires VisitsTransactions(file.directives, order)
    ensures closingId' == |matches'| && Tracks(ds0, file.directives, matches')
    ensures VisitsTransactions(file.directives, order)
    ensures Sweep(file.directives, matches', order, i, j + 1).0 == Sweep(old(file.directives), matches, order, i, j).0
    ensures Sweep(file.directives, matches', order, i, j + 1).1 == Sweep(old(file.directives), matches, order, i, j).1
  {
    assert order[i] < |ds0| && order[j] < |ds0|;
    ghost var step := MatchStep(file.directives, matches, order[i], order[j]);
    SweepStep(file.directives, matches, order, i, j);
    closingId', matches' := TryMatch(file, ds0, order[i], order[j], closingId, matches);
    assert file.directives == step.0 && matches' == step.1;
  }

  /**
   * One step of the inner loop of `closing`: the candidates `ci` and `cj`
   * are paired when they share a date and their clearing legs carry
   * explicit amounts in one currency that cancel; the pair's legs then move
   * to the next closing account.
   */
  method TryMatch(file: BeancountFile, ghost ds0: seq<Directive>, ci: nat, cj: nat, closingId: nat, matches: seq<Match>)
    returns (closingId': nat, matches': seq<Match>)
    modifies file
    requires Tracks(ds0, file.directives, matches) && closingId == |matches|
    requires ci < |ds0| && cj < |ds0| && ContainsClosingPosting(ds0[ci]) && ContainsClosingPosting(ds0[cj])
    requires ds0[ci].date == ds0[cj].date ==> ci < cj
    ensures ci < |old(file.directives)| && old(file.directives)[ci].content.Txn?
    ensures cj < |old(file.directives)| && old(file.directives)[cj].content.Txn?
    ensures file.directives == MatchStep(old(file.directives), matches, ci, cj).0
    ensures matches' == MatchStep(old(file.directives), matches, ci, cj).1
    ensures Tracks(ds0, file.directives, matches') && closingId' == |matches'|
  {
    closingId', matches' := closingId, matches;
    assert file.directives[ci] == Renamed(ds0[ci], ci, matches);
    assert file.directives[cj] == Renamed(ds0[cj], cj, matches);
    if file.directives[ci].date == file.directives[cj].date {
      var p1 := ClosingPosting(file.directives[ci]);
      var p2 := ClosingPosting(file.directives[cj]);
      if p1.Some? && p2.Some? {
        var a1 := file.directives[ci].content.transaction.postings[p1.value].amount;
        var a2 := file.directives[cj].content.transaction.postings[p2.value].amount;
        if a1.Some? && a2.Some? && a1.value.currency == a2.value.currency && a1.value.value == -a2.value.value {
          var account := ClosingAccountName(closingId);
          closingId' := closingId + 1;
          var m := Match(Slot(ci, p1.value), Slot(cj, p2.value), account, a1.value.currency);
          TracksExtend(ds0, file.directives, matches, m);
          file.directives := file.directives[ci := SetAccount(file.directives[ci], p1.value, account)];
          file.directives := file.directives[cj := SetAccount(file.directives[cj], p2.value, account)];
          matches' := matches + [m];
        }
      }
    }
  }

  /**
   * The closing unit test with the clearing amounts written out: two
   * transactions of 2022-01-01 whose clearing legs are +5 CHF and -5 CHF
   * form one match, and both legs move to `Assets:Closing:000000`.
   */
  lemma ClosingExample()
    ensures var chf := Currency("CHF");
      var ds := [ExampleTxn(-5.0, Some(Amount(5.0, chf))), ExampleTxn(5.0, Some(Amount(-5.0, chf)))];
      var leg := Account("Assets:Closing:000000");
      ClosingSpec(ds).1 == [Match(Slot(0, 1), Slot(1, 1), leg, chf)]
      && ClosingSpec(ds).0 == [SetAccount(ds[0], 1, leg), SetAccount(ds[1], 1, leg)]
  {
    var chf := Currency("CHF");
    var ds := [ExampleTxn(-5.0, Some(Amount(5.0, chf))), ExampleTxn(5.0, Some(Amount(-5.0, chf)))];
    ExampleOrder(Some(Amount(5.0, chf)), Some(Amount(-5.0, chf)));
    ExampleName();
    var leg := Account("Assets:Closing:000000");
    assert ClosingPosting(ds[0]) == Some(1) && ClosingPosting(ds[1]) == Some(1);
    assert ds[0].content.transaction.postings[1].amount == Some(Amount(5.0, chf));
    assert ds[1].content.transaction.postings[1].amount == Some(Amount(-5.0, chf));
    assert ds[0].date == ds[1].date;
    var step := MatchStep(ds, [], 0, 1);
    assert step.1 == [Match(Slot(0, 1), Slot(1, 1), leg, chf)];
    assert step.0 == [SetAccount(ds[0], 1, leg), SetAccount(ds[1], 1, leg)];
    assert Sweep(ds, [], [0, 1], 0, 1) == Sweep(step.0, step.1, [0, 1], 0, 2) == step;
    assert Pass(step.0, step.1, [0, 1], 1) == step;
  }

  /**
   * The closing unit test as written: its clearing legs have no amount, so
   * the shown code finds no match and changes nothing.
   */
  lemma ClosingExampleElided()
    ensures var chf := Currency("CHF");
      var ds := [ExampleTxn(-5.0, None), ExampleTxn(5.0, None)];
      ClosingSpec(ds) == (ds, [])
  {
    var chf := Currency("CHF");
    var ds := [ExampleTxn(-5.0, None), ExampleTxn(5.0, None)];
    ExampleOrder(None, None);
    assert MatchStep(ds, [], 0, 1) == (ds, []);
    assert Sweep(ds, [], [0, 1], 0, 1) == Sweep(ds, [], [0, 1], 0, 2) == (ds, []);
    assert Pass(ds, [], [0, 1], 1) == (ds, []);
  }

  /** A 2022-01-01 transaction moving `bank` CHF on `Assets:Bank1`, with a clearing leg. */
  function ExampleTxn(bank: real, clearing: Option<Amount>): Directive
  {
    var bankLeg := Posting(None, Account("Assets:Bank1"), Some(Amount(bank, Currency("CHF"))), None, None, map[], false);
    var clearingLeg := Posting(None, ClearingAccount, clearing, None, None, map[], false);
    Directive(Date(2022, 1, 1), Txn(Transaction(Some(Completed), None, None, {}, {}, [bankLeg, clearingLeg], false)), map[])
  }

  /** Both example transactions are candidates, visited in file order. */
  lemma ExampleOrder(c1: Option<Amount>, c2: Option<Amount>)
    ensures var ds := [ExampleTxn(-5.0, c1), ExampleTxn(5.0, c2)];
      ClosingOrder(ds) == [0, 1] && ClosingPosting(ds[0]) == Some(1) && ClosingPosting(ds[1]) == Some(1)
  {
    var ds := [ExampleTxn(-5.0, c1), ExampleTxn(5.0, c2)];
    ExampleClearing(-5.0, c1);
    ExampleClearing(5.0, c2);
    ExampleCandidates(ds);
    ExampleSort(DateKeys(ds));
  }

  /** The clearing leg of an example transaction is its second posting. */
  lemma ExampleClearing(bank: real, c: Option<Amount>)
    ensures ContainsClosingPosting(ExampleTxn(bank, c)) && ClosingPosting(ExampleTxn(bank, c)) == Some(1)
  {
    var ps := ExampleTxn(bank, c).content.transaction.postings;
    assert ps[1].account == ClearingAccount;
    assert ps[0].account != ClearingAccount by {
      assert ps[0].account.name[8] != ClearingAccount.name[8];
    }
    assert FirstClearing(ps[1..]) == Some(0);
  }

  lemma ExampleCandidates(ds: seq<Directive>)
    requires |ds| == 2 && ContainsClosingPosting(ds[0]) && ContainsClosingPosting(ds[1])
    ensures Candidates(ds) == [0, 1]
  {
    assert ds[..1][..0] == [];
    assert Candidates(ds[..1]) == [0];
    assert ds[..|ds| - 1] == ds[..1];
  }

  lemma ExampleSort(keys: seq<SortKey>)
    requires |keys| == 2 && keys[0] == keys[1]
    ensures InRange(keys, [0, 1]) && StableSort(keys, [0, 1]) == [0, 1]
  {
    assert [0, 1][..1] == [0];
    assert StableSort(keys, [0]) == [0];
    assert Precedes(keys, 0, 1);
    assert Insert(keys, 1, [0]) == [0, 1];
  }

  lemma ExampleName()
    ensures ClosingAccountName(0) == Account("Assets:Closing:000000")
  {
    assert NatDigits(0) == "0";
    assert Zeros(5) == "00000";
  }

  /** The final loop of `closing`: one Open and one zero Balance per match. */
  method AppendSupporting(file: BeancountFile, matches: seq<Match>)
    modifies file
    ensures file.directives == old(file.directives) + SupportingDirectives(matches)
  {
    var t := 0;
    while t < |matches|
      invariant 0 <= t <= |matches|
      invariant file.directives == old(file.directives) + SupportingDirectives(matches[..t])
    {
      assert matches[..t + 1][..t] == matches[..t];
      file.directives := file.directives + [OpenFor(matches[t]), BalanceFor(matches[t])];
      t := t + 1;
    }
    assert matches[..t] == matches;
  }
}
