/**
 * Rust's stable `sort_by_key` / `sort_by` on a list of directive references.
 * The list is represented by the positions of the directives in an
 * underlying sequence; when that list is ascending (it was collected in
 * order), a stable sort by a key is the same as a sort by (key, position).
 */
module Ordering {
  import opened Types

  predicate DateLt(a: Date, b: Date)
  {
    a.year < b.year
    || (a.year == b.year && (a.month < b.month || (a.month == b.month && a.day < b.day)))
  }

  /** A sort key: a date, then a rank that orders directives of the same date. */
  datatype SortKey = SortKey(date: Date, rank: int)

  predicate KeyLt(a: SortKey, b: SortKey)
  {
    DateLt(a.date, b.date) || (a.date == b.date && a.rank < b.rank)
  }

  /** Position `i` comes before position `j` in the stable order. */
  predicate Precedes(keys: seq<SortKey>, i: nat, j: nat)
    requires i < |keys| && j < |keys|
  {
    KeyLt(keys[i], keys[j]) || (keys[i] == keys[j] && i < j)
  }

  predicate InRange(keys: seq<SortKey>, xs: seq<nat>)
  {
    forall k :: 0 <= k < |xs| ==> xs[k] < |keys|
  }

  predicate SortedBy(keys: seq<SortKey>, xs: seq<nat>)
    requires InRange(keys, xs)
  {
    forall a, b :: 0 <= a < b < |xs| ==> Precedes(keys, xs[a], xs[b])
  }

  predicate Distinct(xs: seq<nat>)
  {
    forall a, b :: 0 <= a < b < |xs| ==> xs[a] != xs[b]
  }

  lemma PrecedesTransitive(keys: seq<SortKey>, i: nat, j: nat, k: nat)
    requires i < |keys| && j < |keys| && k < |keys|
    requires Precedes(keys, i, j) && Precedes(keys, j, k)
    ensures Precedes(keys, i, k)
  {
  }

  lemma PrecedesTotal(keys: seq<SortKey>, i: nat, j: nat)
    requires i < |keys| && j < |keys| && i != j
    ensures Precedes(keys, i, j) || Precedes(keys, j, i)
  {
  }

  function Insert(keys: seq<SortKey>, x: nat, xs: seq<nat>): (r: seq<nat>)
    requires x < |keys| && InRange(keys, xs)
    ensures InRange(keys, r)
    ensures multiset(r) == multiset(xs) + multiset{x}
  {
    if xs == [] then [x]
    else if Precedes(keys, x, xs[0]) then [x] + xs
    else
      assert xs == [xs[0]] + xs[1..];
      [xs[0]] + Insert(keys, x, xs[1..])
  }

  /** A list stays sorted when an element preceding all of it is put in front. */
  lemma ConsSorted(keys: seq<SortKey>, y: nat, rest: seq<nat>)
    requires y < |keys| && InRange(keys, rest) && SortedBy(keys, rest)
    requires forall b :: 0 <= b < |rest| ==> Precedes(keys, y, rest[b])
    ensures InRange(keys, [y] + rest) && SortedBy(keys, [y] + rest)
  {
    var r := [y] + rest;
    forall a, b | 0 <= a < b < |r| ensures Precedes(keys, r[a], r[b]) {
      if a > 0 {
        assert r[a] == rest[a - 1] && r[b] == rest[b - 1];
      } else {
        assert r[b] == rest[b - 1];
      }
    }
  }

  lemma {:induction false} InsertSorted(keys: seq<SortKey>, x: nat, xs: seq<nat>)
    requires x < |keys| && InRange(keys, xs)
    requires SortedBy(keys, xs) && x !in xs
    ensures SortedBy(keys, Insert(keys, x, xs))
  {
    if xs == [] {
    } else if Precedes(keys, x, xs[0]) {
      forall b | 0 <= b < |xs| ensures Precedes(keys, x, xs[b]) {
        if b > 0 {
          PrecedesTransitive(keys, x, xs[0], xs[b]);
        }
      }
      ConsSorted(keys, x, xs);
    } else {
      var rest := Insert(keys, x, xs[1..]);
      InsertSorted(keys, x, xs[1..]);
      PrecedesTotal(keys, x, xs[0]);
      forall b | 0 <= b < |rest| ensures Precedes(keys, xs[0], rest[b]) {
        assert rest[b] in multiset(rest);
        if rest[b] != x {
          assert rest[b] in multiset(xs[1..]);
          var c :| 0 <= c < |xs[1..]| && xs[1..][c] == rest[b];
          assert xs[c + 1] == rest[b];
        }
      }
      ConsSorted(keys, xs[0], rest);
    }
  }

  /** Insertion sort by (key, position). */
  function StableSort(keys: seq<SortKey>, xs: seq<nat>): (r: seq<nat>)
    requires InRange(keys, xs)
    ensures InRange(keys, r)
    ensures multiset(r) == multiset(xs)
    ensures Distinct(xs) ==> SortedBy(keys, r)
  {
    if xs == [] then []
    else
      var init, last := xs[..|xs| - 1], xs[|xs| - 1];
      assert xs == init + [last];
      var sortedInit := StableSort(keys, init);
      if Distinct(xs) then
        assert Distinct(init);
        assert last !in init by {
          forall k | 0 <= k < |init| ensures init[k] != last {
            assert xs[k] != xs[|xs| - 1];
          }
        }
        assert last !in multiset(sortedInit);
        InsertSorted(keys, last, sortedInit);
        Insert(keys, last, sortedInit)
      else
        Insert(keys, last, sortedInit)
  }

  predicate Ascending(xs: seq<nat>)
  {
    forall a, b :: 0 <= a < b < |xs| ==> xs[a] < xs[b]
  }

  /**
   * Sorting an ascending list of positions is a stable sort by key: keys
   * never decrease, and positions with equal keys keep their order.
   */
  lemma StableSortIsStable(keys: seq<SortKey>, xs: seq<nat>)
    requires InRange(keys, xs) && Ascending(xs)
    ensures multiset(StableSort(keys, xs)) == multiset(xs)
    ensures forall a, b :: 0 <= a < b < |StableSort(keys, xs)| ==>
      var r := StableSort(keys, xs);
      !KeyLt(keys[r[b]], keys[r[a]]) && (keys[r[a]] == keys[r[b]] ==> r[a] < r[b])
  {
    assert Distinct(xs);
    var r := StableSort(keys, xs);
    forall a, b | 0 <= a < b < |r|
      ensures !KeyLt(keys[r[b]], keys[r[a]])
    {
      assert Precedes(keys, r[a], r[b]);
    }
  }

  lemma PrecedesAsymmetric(keys: seq<SortKey>, i: nat, j: nat)
    requires i < |keys| && j < |keys| && Precedes(keys, i, j)
    ensures !Precedes(keys, j, i)
  {
  }

  lemma SortedHeadsAgree(keys: seq<SortKey>, r1: seq<nat>, r2: seq<nat>)
    requires InRange(keys, r1) && InRange(keys, r2) && r1 != [] && r2 != []
    requires multiset(r1) == multiset(r2)
    requires SortedBy(keys, r1) && SortedBy(keys, r2)
    ensures r1[0] == r2[0]
  {
    assert r1[0] in multiset(r2);
    assert r2[0] in multiset(r1);
    if r1[0] != r2[0] {
      var i :| 0 <= i < |r2| && r2[i] == r1[0];
      var j :| 0 <= j < |r1| && r1[j] == r2[0];
      assert Precedes(keys, r1[0], r1[j]);
      assert Precedes(keys, r2[0], r2[i]);
      PrecedesAsymmetric(keys, r2[0], r1[0]);
    }
  }

  /** The tail of a sorted list is sorted and holds the other elements. */
  lemma SortedTail(keys: seq<SortKey>, r: seq<nat>)
    requires InRange(keys, r) && SortedBy(keys, r) && r != []
    ensures InRange(keys, r[1..]) && SortedBy(keys, r[1..])
    ensures multiset(r[1..]) == multiset(r) - multiset{r[0]}
  {
    var t := r[1..];
    assert r == [r[0]] + t;
    forall a, b | 0 <= a < b < |t| ensures Precedes(keys, t[a], t[b]) {
      assert t[a] == r[a + 1] && t[b] == r[b + 1];
    }
  }

  /**
   * There is only one list sorted by (key, position) with given elements, so
   * the insertion sort agrees with any other stable sort of the same list.
   */
  lemma {:induction false} SortedUnique(keys: seq<SortKey>, r1: seq<nat>, r2: seq<nat>)
    requires InRange(keys, r1) && InRange(keys, r2)
    requires multiset(r1) == multiset(r2)
    requires SortedBy(keys, r1) && SortedBy(keys, r2)
    ensures r1 == r2
  {
    assert |r1| == |multiset(r1)| == |multiset(r2)| == |r2|;
    if r1 != [] {
      SortedHeadsAgree(keys, r1, r2);
      SortedTail(keys, r1);
      SortedTail(keys, r2);
      SortedUnique(keys, r1[1..], r2[1..]);
      assert r1 == [r1[0]] + r1[1..] && r2 == [r2[0]] + r2[1..];
    }
  }
}
