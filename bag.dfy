/**
 * The currency bag: a map from currency to value that accumulates amounts.
 * The functions on maps give the meaning of each operation; the class `Bag`
 * holds the map and updates it in place, as the Rust struct does.
 */
module Bags {
  import opened Types

  /** The value held for `c`, zero when the currency has no entry. */
  function Value(m: map<Currency, real>, c: Currency): real
  {
    if c in m then m[c] else 0.0
  }

  /** The map after `+= amount`: the entry is created from zero if absent. */
  function WithAmount(m: map<Currency, real>, a: Amount): (r: map<Currency, real>)
    ensures r.Keys == m.Keys + {a.currency}
    ensures Value(r, a.currency) == Value(m, a.currency) + a.value
    ensures forall c :: c != a.currency ==> Value(r, c) == Value(m, c) && (c in r <==> c in m)
  {
    m[a.currency := Value(m, a.currency) + a.value]
  }

  /** The map after adding every entry of `n` into `m`. */
  function Merge(m: map<Currency, real>, n: map<Currency, real>): (r: map<Currency, real>)
    ensures r.Keys == m.Keys + n.Keys
    ensures forall c :: Value(r, c) == Value(m, c) + Value(n, c)
  {
    map c | c in m.Keys + n.Keys :: Value(m, c) + Value(n, c)
  }

  /** `is_zero`: no stored value differs from zero. */
  predicate AllZero(m: map<Currency, real>)
  {
    forall c :: c in m ==> m[c] == 0.0
  }

  /** `retain(|_, v| *v != 0)`: the entries whose value is not zero. */
  function Trimmed(m: map<Currency, real>): map<Currency, real>
  {
    map c | c in m && m[c] != 0.0 :: m[c]
  }

  lemma AllZeroMeansNoValue(m: map<Currency, real>)
    ensures AllZero(m) <==> forall c :: Value(m, c) == 0.0
  {
    if !AllZero(m) {
      var c :| c in m && m[c] != 0.0;
      assert Value(m, c) != 0.0;
    }
  }

  /**
   * Trimming removes exactly the zero entries, keeps every value a currency
   * reads as, and so does not change whether the bag is zero.
   */
  lemma TrimmedSpec(m: map<Currency, real>)
    ensures Trimmed(m).Keys == set c | c in m && m[c] != 0.0
    ensures forall c :: c in Trimmed(m) ==> Trimmed(m)[c] == m[c] && m[c] != 0.0
    ensures forall c :: Value(Trimmed(m), c) == Value(m, c)
    ensures AllZero(Trimmed(m)) <==> AllZero(m)
    ensures AllZero(m) <==> Trimmed(m) == map[]
  {
    if !AllZero(m) {
      var c :| c in m && m[c] != 0.0;
      assert c in Trimmed(m);
    }
  }

  lemma MergeCommutative(m: map<Currency, real>, n: map<Currency, real>)
    ensures Merge(m, n) == Merge(n, m)
  {
  }

  lemma MergeAssociative(a: map<Currency, real>, b: map<Currency, real>, c: map<Currency, real>)
    ensures Merge(Merge(a, b), c) == Merge(a, Merge(b, c))
  {
  }

  /** Adding an amount is merging the one-entry bag of that amount. */
  lemma WithAmountIsMerge(m: map<Currency, real>, a: Amount)
    ensures WithAmount(m, a) == Merge(m, map[a.currency := a.value])
  {
  }

  /** The entries of `n` whose currency is in `ks`. */
  function Part(n: map<Currency, real>, ks: set<Currency>): (r: map<Currency, real>)
    requires ks <= n.Keys
    ensures r.Keys == ks
  {
    map c | c in ks :: n[c]
  }

  /** Merging one more entry of `n` is adding its value under its currency. */
  lemma MergePartStep(m: map<Currency, real>, n: map<Currency, real>, ks: set<Currency>, c: Currency)
    requires ks <= n.Keys && c in n && c !in ks
    ensures Merge(m, Part(n, ks + {c})) == Merge(m, Part(n, ks))[c := Value(Merge(m, Part(n, ks)), c) + n[c]]
  {
    var before := Merge(m, Part(n, ks));
    var after := Merge(m, Part(n, ks + {c}));
    assert after.Keys == before.Keys + {c};
    forall x | x in after ensures after[x] == before[c := Value(before, c) + n[c]][x] {
      assert Value(after, x) == Value(m, x) + Value(Part(n, ks + {c}), x);
    }
  }

  /** The bag after `+=` of each amount in turn, starting from `m`. */
  function Accumulate(m: map<Currency, real>, amounts: seq<Amount>): map<Currency, real>
  {
    if amounts == [] then m
    else WithAmount(Accumulate(m, amounts[..|amounts| - 1]), amounts[|amounts| - 1])
  }

  /** The total of the values in `amounts` that are in currency `c`. */
  function SumIn(amounts: seq<Amount>, c: Currency): real
  {
    if amounts == [] then 0.0
    else
      var last := amounts[|amounts| - 1];
      SumIn(amounts[..|amounts| - 1], c) + (if last.currency == c then last.value else 0.0)
  }

  function CurrenciesOf(amounts: seq<Amount>): set<Currency>
  {
    set k | 0 <= k < |amounts| :: amounts[k].currency
  }

  /**
   * After any sequence of additions, each currency's entry is its starting
   * value plus the sum of the values added in that currency, and the keys
   * are the starting keys plus every currency that was added.
   */
  lemma {:induction false} AccumulateSpec(m: map<Currency, real>, amounts: seq<Amount>)
    ensures Accumulate(m, amounts).Keys == m.Keys + CurrenciesOf(amounts)
    ensures forall c :: Value(Accumulate(m, amounts), c) == Value(m, c) + SumIn(amounts, c)
  {
    if amounts != [] {
      var init := amounts[..|amounts| - 1];
      AccumulateSpec(m, init);
      assert CurrenciesOf(amounts) == CurrenciesOf(init) + {amounts[|amounts| - 1].currency} by {
        forall c | c in CurrenciesOf(amounts) ensures c in CurrenciesOf(init) + {amounts[|amounts| - 1].currency} {
          var k :| 0 <= k < |amounts| && amounts[k].currency == c;
          if k < |amounts| - 1 { assert init[k] == amounts[k]; }
        }
        forall c | c in CurrenciesOf(init) ensures c in CurrenciesOf(amounts) {
          var k :| 0 <= k < |init| && init[k].currency == c;
          assert amounts[k] == init[k];
        }
      }
    }
  }

  lemma {:induction false} SumInAppend(xs: seq<Amount>, ys: seq<Amount>, c: Currency)
    ensures SumIn(xs + ys, c) == SumIn(xs, c) + SumIn(ys, c)
  {
    if ys == [] {
      assert xs + ys == xs;
    } else {
      assert (xs + ys)[..|xs + ys| - 1] == xs + ys[..|ys| - 1];
      SumInAppend(xs, ys[..|ys| - 1], c);
    }
  }

  /** Rearranging the amounts does not change any per-currency sum. */
  lemma {:induction false} SumInPermutation(xs: seq<Amount>, ys: seq<Amount>, c: Currency)
    requires multiset(xs) == multiset(ys)
    ensures SumIn(xs, c) == SumIn(ys, c)
    decreases |xs|
  {
    if xs != [] {
      var x := xs[|xs| - 1];
      var xinit := xs[..|xs| - 1];
      assert xs == xinit + [x];
      assert multiset(xinit) == multiset(xs) - multiset{x};
      assert x in multiset(ys);
      var i :| 0 <= i < |ys| && ys[i] == x;
      SumInRemoveAt(ys, i, c);
      SumInPermutation(xinit, ys[..i] + ys[i + 1..], c);
    }
  }

  /** Taking out the amount at `i` removes it from the multiset and its value from the sum. */
  lemma SumInRemoveAt(ys: seq<Amount>, i: nat, c: Currency)
    requires i < |ys|
    ensures multiset(ys[..i] + ys[i + 1..]) == multiset(ys) - multiset{ys[i]}
    ensures SumIn(ys, c) == SumIn(ys[..i] + ys[i + 1..], c) + (if ys[i].currency == c then ys[i].value else 0.0)
  {
    var x := ys[i];
    assert ys == ys[..i] + [x] + ys[i + 1..];
    assert multiset(ys) == multiset(ys[..i]) + multiset{x} + multiset(ys[i + 1..]);
    SumInAppend(ys[..i], ys[i + 1..], c);
    SumInAppend(ys[..i] + [x], ys[i + 1..], c);
    SumInAppend(ys[..i], [x], c);
    assert SumIn([x], c) == (if x.currency == c then x.value else 0.0) by {
      assert [x][..0] == [];
    }
  }


  /** The order in which amounts are added does not matter. */
  lemma AccumulateOrderIrrelevant(m: map<Currency, real>, xs: seq<Amount>, ys: seq<Amount>)
    requires multiset(xs) == multiset(ys)
    ensures Accumulate(m, xs) == Accumulate(m, ys)
  {
    AccumulateSpec(m, xs);
    AccumulateSpec(m, ys);
    assert CurrenciesOf(xs) == CurrenciesOf(ys) by {
      forall c | c in CurrenciesOf(xs) ensures c in CurrenciesOf(ys) {
        var k :| 0 <= k < |xs| && xs[k].currency == c;
        assert xs[k] in multiset(ys);
      }
      forall c | c in CurrenciesOf(ys) ensures c in CurrenciesOf(xs) {
        var k :| 0 <= k < |ys| && ys[k].currency == c;
        assert ys[k] in multiset(xs);
      }
    }
    forall c ensures Value(Accumulate(m, xs), c) == Value(Accumulate(m, ys), c) {
      SumInPermutation(xs, ys, c);
    }
    var a, b := Accumulate(m, xs), Accumulate(m, ys);
    forall c | c in a ensures a[c] == b[c] {
      assert Value(a, c) == Value(b, c);
    }
  }

  class Bag {
    var currencies: map<Currency, real>

    /** `Bag::new()` / `Default::default()`: the empty bag. */
    constructor ()
      ensures currencies == map[]
      ensures IsZero()
    {
      currencies := map[];
    }

    /** True when no stored value differs from zero. */
    predicate IsZero()
      reads this
      ensures IsZero() <==> forall c :: Value(currencies, c) == 0.0
    {
      AllZeroMeansNoValue(currencies);
      AllZero(currencies)
    }

    /** The stored currency-to-value map: every currency reads as in the bag, and the bag is zero iff every stored value is. */
    function Commodities(): (r: map<Currency, real>)
      reads this
      ensures forall c :: Value(r, c) == Value(currencies, c)
      ensures IsZero() <==> forall c :: c in r ==> r[c] == 0.0
    {
      currencies
    }

    method Trim()
      modifies this
      ensures currencies == Trimmed(old(currencies))
      ensures forall c :: Value(currencies, c) == Value(old(currencies), c)
      ensures forall c :: c in currencies ==> currencies[c] != 0.0
      ensures IsZero() == old(IsZero())
    {
      TrimmedSpec(currencies);
      currencies := map c | c in currencies && currencies[c] != 0.0 :: currencies[c];
    }

    /** `bag += amount`. */
    method AddAmount(a: Amount)
      modifies this
      ensures currencies == WithAmount(old(currencies), a)
    {
      var v := if a.currency in currencies then currencies[a.currency] else 0.0;
      currencies := currencies[a.currency := v + a.value];
    }

    /**
     * `bag += other` and `bag += &other`: every entry of `other` is added in.
     * The two Rust impls differ only in ownership of `other`.
     */
    method AddBag(other: Bag)
      requires other != this
      modifies this
      ensures currencies == Merge(old(currencies), other.currencies)
    {
      var rest := other.currencies.Keys;
      while rest != {}
        invariant rest <= other.currencies.Keys
        invariant currencies == Merge(old(currencies), Part(other.currencies, other.currencies.Keys - rest))
        decreases rest
      {
        var commodity :| commodity in rest;
        ghost var done := other.currencies.Keys - rest;
        assert other.currencies.Keys - (rest - {commodity}) == done + {commodity};
        MergePartStep(old(currencies), other.currencies, done, commodity);
        var v := if commodity in currencies then currencies[commodity] else 0.0;
        currencies := currencies[commodity := v + other.currencies[commodity]];
        rest := rest - {commodity};
      }
      assert Part(other.currencies, other.currencies.Keys - {}) == other.currencies;
    }

    /** `bag + other`: `bag` is moved into the result and `other` added to it. */
    method Add(other: Bag) returns (res: Bag)
      requires other != this
      modifies this
      ensures res == this
      ensures res.currencies == Merge(old(currencies), other.currencies)
    {
      res := this;
      res.AddBag(other);
    }
  }
}
