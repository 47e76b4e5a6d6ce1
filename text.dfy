/**
 * Character and string helpers shared by the model: ASCII digit classes,
 * decimal rendering of integers (Rust's plain and zero-padded integer formats), the byte-wise
 * string order of Rust's `String`, sorted views of string sets and joins.
 */
module Text {

  // ---------------------------------------------------------------------
  // Decimal digits
  // ---------------------------------------------------------------------

  predicate IsDigit(c: char) { '0' <= c <= '9' }

  predicate AllDigits(s: string) { forall k :: 0 <= k < |s| ==> IsDigit(s[k]) }

  function DigitChar(d: nat): (c: char)
    requires d < 10
    ensures IsDigit(c)
  {
    (48 + d) as char
  }

  function DigitValue(c: char): (d: nat)
    requires IsDigit(c)
    ensures d < 10 && DigitChar(d) == c
  {
    c as int - 48
  }

  /** The value of a string of decimal digits, most significant first. */
  function DigitsValue(s: string): nat
    requires AllDigits(s)
  {
    if s == [] then 0 else DigitsValue(s[..|s| - 1]) * 10 + DigitValue(s[|s| - 1])
  }

  /** A two-digit group's value, digit by digit. */
  lemma DigitsValueTwo(s: string)
    requires |s| == 2 && AllDigits(s)
    ensures DigitsValue(s) == DigitValue(s[0]) * 10 + DigitValue(s[1])
  {
    var h := s[..1];
    assert h[..0] == [] && h[0] == s[0];
    assert DigitsValue(h) == DigitValue(s[0]);
  }

  /** A four-digit group's value, digit by digit. */
  lemma DigitsValueFour(s: string)
    requires |s| == 4 && AllDigits(s)
    ensures DigitsValue(s) == DigitValue(s[0]) * 1000 + DigitValue(s[1]) * 100 + DigitValue(s[2]) * 10 + DigitValue(s[3])
  {
    var t := s[..3];
    DigitsValueTwo(s[..2]);
    assert t[..2] == s[..2] && t[2] == s[2];
    assert DigitsValue(t) == DigitsValue(s[..2]) * 10 + DigitValue(s[2]);
  }

  function Pow10(k: nat): (p: nat)
    ensures p >= 1
  {
    if k == 0 then 1 else 10 * Pow10(k - 1)
  }

  /** Shortest decimal rendering of `n` (Rust's `{}` on an unsigned integer). */
  function NatDigits(n: nat): (s: string)
    ensures |s| >= 1 && AllDigits(s)
  {
    if n < 10 then [DigitChar(n)] else NatDigits(n / 10) + [DigitChar(n % 10)]
  }

  /** Rust's `{}` on a signed integer. */
  function IntString(i: int): (s: string)
    ensures |s| >= 1
  {
    if i < 0 then "-" + NatDigits(-i) else NatDigits(i)
  }

  function Zeros(k: nat): (s: string)
    ensures |s| == k && AllDigits(s)
    ensures forall j :: 0 <= j < k ==> s[j] == '0'
  {
    if k == 0 then [] else Zeros(k - 1) + "0"
  }

  /** Rust's zero-padded format of width `w` on an unsigned integer: zeros on the left up to width `w`. */
  function ZeroPad(n: nat, w: nat): (s: string)
    ensures |s| >= w && AllDigits(s)
  {
    var digits := NatDigits(n);
    if |digits| >= w then digits else Zeros(w - |digits|) + digits
  }

  lemma DigitsValueAppend(s: string, c: char)
    requires AllDigits(s) && IsDigit(c)
    ensures AllDigits(s + [c]) && DigitsValue(s + [c]) == DigitsValue(s) * 10 + DigitValue(c)
  {
    assert (s + [c])[..|s + [c]| - 1] == s;
  }

  lemma {:induction false} DigitsValueZeros(k: nat)
    ensures DigitsValue(Zeros(k)) == 0
  {
    if k > 0 {
      DigitsValueZeros(k - 1);
      DigitsValueAppend(Zeros(k - 1), '0');
    }
  }

  /** Leading zeros do not change the value of a digit string. */
  lemma {:induction false} DigitsValueLeadingZeros(k: nat, s: string)
    requires AllDigits(s)
    ensures AllDigits(Zeros(k) + s) && DigitsValue(Zeros(k) + s) == DigitsValue(s)
  {
    if s == [] {
      assert Zeros(k) + s == Zeros(k);
      DigitsValueZeros(k);
    } else {
      var init, last := s[..|s| - 1], s[|s| - 1];
      assert s == init + [last];
      assert Zeros(k) + s == (Zeros(k) + init) + [last];
      DigitsValueLeadingZeros(k, init);
      DigitsValueAppend(Zeros(k) + init, last);
      DigitsValueAppend(init, last);
    }
  }

  /** Reading back the shortest rendering gives the number. */
  lemma {:induction false} NatDigitsValue(n: nat)
    ensures DigitsValue(NatDigits(n)) == n
  {
    if n >= 10 {
      NatDigitsValue(n / 10);
      DigitsValueAppend(NatDigits(n / 10), DigitChar(n % 10));
    }
  }

  /** Reading back a zero-padded rendering gives the number. */
  lemma {:induction false} ZeroPadValue(n: nat, w: nat)
    ensures DigitsValue(ZeroPad(n, w)) == n
  {
    var digits := NatDigits(n);
    NatDigitsValue(n);
    if |digits| < w {
      assert ZeroPad(n, w) == Zeros(w - |digits|) + digits;
      DigitsValueLeadingZeros(w - |digits|, digits);
    } else {
      assert ZeroPad(n, w) == digits;
    }
  }

  /** Distinct numbers have distinct zero-padded renderings. */
  lemma ZeroPadInjective(a: nat, b: nat, w: nat)
    requires ZeroPad(a, w) == ZeroPad(b, w)
    ensures a == b
  {
    ZeroPadValue(a, w);
    ZeroPadValue(b, w);
  }

  lemma {:induction false} NatDigitsLength(n: nat, w: nat)
    requires w >= 1 && n < Pow10(w)
    ensures |NatDigits(n)| <= w
  {
    if n >= 10 {
      NatDigitsLength(n / 10, w - 1);
    }
  }

  /** A number below 10^w renders in exactly `w` characters when zero-padded to width `w`. */
  lemma ZeroPadWidth(n: nat, w: nat)
    requires w >= 1 && n < Pow10(w)
    ensures |ZeroPad(n, w)| == w
  {
    NatDigitsLength(n, w);
  }

  lemma {:induction false} DigitsValueBound(s: string)
    requires AllDigits(s)
    ensures DigitsValue(s) < Pow10(|s|)
  {
    if s != [] {
      DigitsValueBound(s[..|s| - 1]);
    }
  }

  lemma {:induction false} DigitsValueZeroIsZeros(s: string)
    requires AllDigits(s) && DigitsValue(s) == 0
    ensures s == Zeros(|s|)
  {
    if s != [] {
      DigitsValueZeroIsZeros(s[..|s| - 1]);
      assert s == s[..|s| - 1] + [s[|s| - 1]];
    }
  }

  /**
   * Zero-padding the value of a digit string to the string's own length
   * gives the string back: zero-padding re-renders any w-digit field exactly.
   */
  lemma {:induction false} ZeroPadOfDigits(s: string)
    requires AllDigits(s) && |s| >= 1
    ensures ZeroPad(DigitsValue(s), |s|) == s
  {
    var init, last := s[..|s| - 1], s[|s| - 1];
    assert s == init + [last];
    var v := DigitsValue(s);
    var vi := DigitsValue(init);
    if vi == 0 {
      DigitsValueZeroIsZeros(init);
      assert v == DigitValue(last) && v < 10;
      assert NatDigits(v) == [last];
    } else {
      assert v >= 10 && v / 10 == vi && v % 10 == DigitValue(last);
      assert NatDigits(v) == NatDigits(vi) + [last];
      ZeroPadOfDigits(init);
      if |NatDigits(vi)| >= |init| {
        assert ZeroPad(vi, |init|) == NatDigits(vi);
      } else {
        assert ZeroPad(vi, |init|) == Zeros(|init| - |NatDigits(vi)|) + NatDigits(vi);
      }
    }
  }

  // ---------------------------------------------------------------------
  // Concatenation and joins
  // ---------------------------------------------------------------------

  /** `join("")` of a list of strings. */
  function Concat(ss: seq<string>): string
  {
    if ss == [] then "" else ss[0] + Concat(ss[1..])
  }

  lemma {:induction false} ConcatAppend(a: seq<string>, b: seq<string>)
    ensures Concat(a + b) == Concat(a) + Concat(b)
  {
    if a != [] {
      assert (a + b)[0] == a[0] && (a + b)[1..] == a[1..] + b;
      ConcatAppend(a[1..], b);
    } else {
      assert a + b == b;
    }
  }

  lemma ConcatSnoc(ss: seq<string>, s: string)
    ensures Concat(ss + [s]) == Concat(ss) + s
  {
    ConcatAppend(ss, [s]);
    assert Concat([s]) == s + Concat([]);
  }

  /** `join(sep)` of a list of strings. */
  function Join(ss: seq<string>, sep: string): string
  {
    if ss == [] then "" else if |ss| == 1 then ss[0] else ss[0] + sep + Join(ss[1..], sep)
  }

  // ---------------------------------------------------------------------
  // Rust's `Ord` on `String`: lexicographic on characters
  // ---------------------------------------------------------------------

  predicate StrLt(a: string, b: string)
  {
    if a == [] then b != []
    else if b == [] then false
    else if a[0] != b[0] then a[0] < b[0]
    else StrLt(a[1..], b[1..])
  }

  lemma {:induction false} StrLtIrreflexive(a: string)
    ensures !StrLt(a, a)
  {
    if a != [] { StrLtIrreflexive(a[1..]); }
  }

  lemma {:induction false} StrLtTransitive(a: string, b: string, c: string)
    requires StrLt(a, b) && StrLt(b, c)
    ensures StrLt(a, c)
  {
    if a != [] && b != [] && c != [] && a[0] == b[0] && b[0] == c[0] {
      StrLtTransitive(a[1..], b[1..], c[1..]);
    }
  }

  lemma {:induction false} StrLtTotal(a: string, b: string)
    requires a != b
    ensures StrLt(a, b) || StrLt(b, a)
  {
    if a != [] && b != [] && a[0] == b[0] {
      assert a == [a[0]] + a[1..] && b == [b[0]] + b[1..];
      StrLtTotal(a[1..], b[1..]);
    }
  }

  lemma StrLtAsymmetric(a: string, b: string)
    requires StrLt(a, b)
    ensures !StrLt(b, a)
  {
    if StrLt(b, a) {
      StrLtTransitive(a, b, a);
      StrLtIrreflexive(a);
    }
  }

  predicate IsLeast(m: string, s: set<string>)
  {
    m in s && forall x :: x in s && x != m ==> StrLt(m, x)
  }

  lemma {:induction false} LeastExists(s: set<string>)
    requires s != {}
    ensures exists m :: IsLeast(m, s)
    decreases |s|
  {
    var x :| x in s;
    if s == {x} {
      assert IsLeast(x, s);
    } else {
      LeastExists(s - {x});
      var m :| IsLeast(m, s - {x});
      if StrLt(m, x) {
        assert IsLeast(m, s);
      } else {
        StrLtTotal(m, x);
        forall y | y in s && y != x
          ensures StrLt(x, y)
        {
          if y != m { StrLtTransitive(x, m, y); }
        }
        assert IsLeast(x, s);
      }
    }
  }

  lemma LeastUnique(s: set<string>)
    ensures forall m1, m2 :: IsLeast(m1, s) && IsLeast(m2, s) ==> m1 == m2
  {
    forall m1, m2 | IsLeast(m1, s) && IsLeast(m2, s)
      ensures m1 == m2
    {
      if m1 != m2 { StrLtAsymmetric(m1, m2); }
    }
  }

  predicate StrictlyAscending(r: seq<string>)
  {
    forall i, j :: 0 <= i < j < |r| ==> StrLt(r[i], r[j])
  }

  /**
   * The elements of a set of strings in ascending order (the `collect`
   * followed by `sort` of the source): each element exactly once.
   */
  function SortedSet(s: set<string>): (r: seq<string>)
    ensures |r| == |s|
    ensures forall x :: x in r <==> x in s
    ensures StrictlyAscending(r)
    decreases |s|
  {
    if s == {} then []
    else
      LeastExists(s);
      LeastUnique(s);
      var m :| IsLeast(m, s);
      var rest := SortedSet(s - {m});
      forall j | 0 <= j < |rest|
        ensures StrLt(m, rest[j])
      {
        assert rest[j] in rest;
        assert rest[j] in s - {m};
      }
      [m] + rest
  }

  /** Distinct elements of a strictly ascending list; its head is the least. */
  lemma AscendingHead(r: seq<string>)
    requires StrictlyAscending(r) && r != []
    ensures forall x :: x in r[1..] <==> x in r && x != r[0]
    ensures IsLeast(r[0], set x | x in r)
  {
    forall x | x in r && x != r[0] ensures x in r[1..] && StrLt(r[0], x) {
      var i :| 0 <= i < |r| && r[i] == x;
      assert r[1..][i - 1] == x;
    }
    forall x | x in r[1..] ensures x != r[0] {
      var i :| 0 <= i < |r[1..]| && r[1..][i] == x;
      assert StrLt(r[0], r[i + 1]);
      StrLtIrreflexive(r[0]);
    }
  }

  /** A strictly ascending list is determined by its elements. */
  lemma {:induction false} AscendingUnique(r1: seq<string>, r2: seq<string>)
    requires StrictlyAscending(r1) && StrictlyAscending(r2)
    requires forall x :: x in r1 <==> x in r2
    ensures r1 == r2
    decreases |r1|
  {
    assert r1 != [] ==> r1[0] in r2;
    assert r2 != [] ==> r2[0] in r1;
    if r1 != [] && r2 != [] {
      AscendingHead(r1);
      AscendingHead(r2);
      assert (set x | x in r1) == (set x | x in r2);
      LeastUnique(set x | x in r1);
      AscendingUnique(r1[1..], r2[1..]);
      assert r1 == [r1[0]] + r1[1..] && r2 == [r2[0]] + r2[1..];
    }
  }

  /** A string greater than every element of a set sorts last. */
  lemma SortedSetAddGreatest(s: set<string>, k: string)
    requires forall x :: x in s ==> StrLt(x, k)
    ensures SortedSet(s + {k}) == SortedSet(s) + [k]
  {
    var r := SortedSet(s) + [k];
    forall i, j | 0 <= i < j < |r| ensures StrLt(r[i], r[j]) {
      if j == |r| - 1 {
        assert r[i] in SortedSet(s);
      }
    }
    AscendingUnique(SortedSet(s + {k}), r);
  }
}
