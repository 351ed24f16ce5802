/**
 * ordenamiento_burbuja: a bubble sort of a copy of the catalogue by one
 * column, ascending or descending. Adjacent records are swapped only when
 * strictly out of order, so the result is ordered, is a permutation of the
 * input, and keeps records with equal keys in their original order.
 */
module Sorting {
  import opened Countries

  /** Python's `<` on str: lexicographic by code point, a proper prefix
      before any of its extensions. Upper-case letters come before lower-case
      ones, so the comparison is case-sensitive. */
  predicate TextLess(a: string, b: string) {
    if a == [] then b != []
    else if b == [] then false
    else if a[0] != b[0] then a[0] < b[0]
    else TextLess(a[1..], b[1..])
  }

  lemma {:induction false} TextLessIrreflexive(a: string)
    ensures !TextLess(a, a)
  {
    if a != [] {
      TextLessIrreflexive(a[1..]);
    }
  }

  lemma {:induction false} TextLessTransitive(a: string, b: string, c: string)
    requires TextLess(a, b) && TextLess(b, c)
    ensures TextLess(a, c)
  {
    if a != [] && b != [] && c != [] && a[0] == b[0] == c[0] {
      TextLessTransitive(a[1..], b[1..], c[1..]);
    }
  }

  lemma {:induction false} TextLessTotal(a: string, b: string)
    ensures a == b || TextLess(a, b) || TextLess(b, a)
  {
    if a != [] && b != [] && a[0] == b[0] {
      TextLessTotal(a[1..], b[1..]);
      if a[1..] == b[1..] {
        assert a == [a[0]] + a[1..] && b == [b[0]] + b[1..];
      }
    }
  }

  /** Upper-case names sort before lower-case ones: "Peru" comes before
      "argentina" in an ascending sort by name. */
  lemma NameOrderIsCaseSensitive()
    ensures TextLess("Peru", "argentina") && !TextLess("argentina", "Peru")
  {
  }

  /** The key of x is strictly below the key of y in the chosen column. */
  predicate Less(x: Country, y: Country, col: Column) {
    match col
    case Name => TextLess(x.name, y.name)
    case Numeric(q) => Amount(x, q) < Amount(y, q)
  }

  predicate SameKey(x: Country, y: Country, col: Column) {
    match col
    case Name => x.name == y.name
    case Numeric(q) => Amount(x, q) == Amount(y, q)
  }

  /** condicion_orden: `a > b` ascending, `a < b` descending; exactly the
      pairs a pass swaps. */
  predicate OutOfOrder(x: Country, y: Country, col: Column, desc: bool) {
    if desc then Less(x, y, col) else Less(y, x, col)
  }

  lemma OutOfOrderAsymmetric(x: Country, y: Country, col: Column, desc: bool)
    requires OutOfOrder(x, y, col, desc)
    ensures !OutOfOrder(y, x, col, desc) && !SameKey(x, y, col)
  {
    if col == Name {
      TextLessIrreflexive(x.name);
      if TextLess(x.name, y.name) && TextLess(y.name, x.name) {
        TextLessTransitive(x.name, y.name, x.name);
      }
    }
  }

  /** Being in order (not out of order) is transitive. */
  lemma InOrderTransitive(x: Country, y: Country, z: Country, col: Column, desc: bool)
    requires !OutOfOrder(x, y, col, desc) && !OutOfOrder(y, z, col, desc)
    ensures !OutOfOrder(x, z, col, desc)
  {
    if col == Name {
      var a, b, c := x.name, y.name, z.name;
      TextLessTotal(a, b);
      TextLessTotal(b, c);
      if desc {
        if TextLess(a, c) {
          if TextLess(b, a) { TextLessTransitive(b, a, c); }
          if TextLess(c, b) { TextLessTransitive(a, c, b); }
          if TextLess(b, a) && TextLess(c, b) { TextLessTransitive(c, b, a); TextLessIrreflexive(a); }
          TextLessIrreflexive(a);
          TextLessIrreflexive(c);
        }
      } else {
        if TextLess(c, a) {
          if TextLess(a, b) { TextLessTransitive(c, a, b); }
          if TextLess(b, c) { TextLessTransitive(b, c, a); }
          if TextLess(a, b) && TextLess(b, c) { TextLessTransitive(a, b, c); TextLessIrreflexive(a); }
          TextLessIrreflexive(a);
          TextLessIrreflexive(c);
        }
      }
    }
  }

  /** No earlier record is out of order with a later one. */
  predicate Ordered(s: seq<Country>, col: Column, desc: bool) {
    forall i, j :: 0 <= i < j < |s| ==> !OutOfOrder(s[i], s[j], col, desc)
  }

  /** The records of s whose key equals the key of x, in the order of s. */
  function KeyGroup(s: seq<Country>, x: Country, col: Column): seq<Country> {
    if s == [] then []
    else KeyGroup(s[..|s| - 1], x, col) + (if SameKey(s[|s| - 1], x, col) then [s[|s| - 1]] else [])
  }

  /** Stability: every group of records sharing a key appears in r in the
      same order as in s. */
  ghost predicate KeepsKeyGroups(r: seq<Country>, s: seq<Country>, col: Column) {
    forall x :: KeyGroup(r, x, col) == KeyGroup(s, x, col)
  }

  lemma {:induction false} KeyGroupConcat(a: seq<Country>, b: seq<Country>, x: Country, col: Column)
    ensures KeyGroup(a + b, x, col) == KeyGroup(a, x, col) + KeyGroup(b, x, col)
  {
    if b == [] {
      assert a + b == a;
    } else {
      var init := b[..|b| - 1];
      assert (a + b)[..|a + b| - 1] == a + init;
      assert (a + b)[|a + b| - 1] == b[|b| - 1];
      KeyGroupConcat(a, init, x, col);
    }
  }

  function SwapAt(s: seq<Country>, j: nat): seq<Country>
    requires j + 1 < |s|
  {
    s[j := s[j + 1]][j + 1 := s[j]]
  }

  lemma KeyGroupOfPair(u: Country, v: Country, x: Country, col: Column)
    ensures KeyGroup([u, v], x, col) ==
              (if SameKey(u, x, col) then [u] else []) + (if SameKey(v, x, col) then [v] else [])
  {
    assert [u, v][..1] == [u];
    assert KeyGroup([u], x, col) == (if SameKey(u, x, col) then [u] else []) by {
      assert [u][..0] == [];
      assert KeyGroup([], x, col) == [];
    }
  }

  lemma ExchangeKeepsGroup(front: seq<Country>, u: Country, v: Country, back: seq<Country>, x: Country, col: Column)
    requires !SameKey(u, v, col)
    ensures KeyGroup(front + [v, u] + back, x, col) == KeyGroup(front + [u, v] + back, x, col)
  {
    KeyGroupConcat(front + [u, v], back, x, col);
    KeyGroupConcat(front, [u, v], x, col);
    KeyGroupConcat(front + [v, u], back, x, col);
    KeyGroupConcat(front, [v, u], x, col);
    KeyGroupOfPair(u, v, x, col);
    KeyGroupOfPair(v, u, x, col);
  }

  /** Swapping two neighbours with different keys permutes the sequence and
      leaves every key group as it was. */
  lemma SwapKeepsGroups(s: seq<Country>, j: nat, col: Column)
    requires j + 1 < |s| && !SameKey(s[j], s[j + 1], col)
    ensures multiset(SwapAt(s, j)) == multiset(s)
    ensures KeepsKeyGroups(SwapAt(s, j), s, col)
  {
    var u, v := s[j], s[j + 1];
    var front, back := s[..j], s[j + 2..];
    assert s == front + [u, v] + back;
    assert SwapAt(s, j) == front + [v, u] + back;
    forall x
      ensures KeyGroup(SwapAt(s, j), x, col) == KeyGroup(s, x, col)
    {
      ExchangeKeepsGroup(front, u, v, back, x, col);
    }
  }

  /** Every record at position m or later is in order with everything before
      it: the last |s| - m positions hold their final records. */
  ghost predicate SortedFrom(s: seq<Country>, m: nat, col: Column, desc: bool) {
    forall p, q :: 0 <= p < q < |s| && m <= q ==> !OutOfOrder(s[p], s[q], col, desc)
  }

  /** The state of the inner loop before it compares positions j and j + 1
      in a pass that ends at m: the part from m on is final, and no record
      before j is out of order with the record at j. */
  ghost predicate PassState(s: seq<Country>, m: nat, j: nat, col: Column, desc: bool) {
    && j < m <= |s|
    && SortedFrom(s, m, col, desc)
    && forall p :: 0 <= p < j ==> !OutOfOrder(s[p], s[j], col, desc)
  }

  /** A swap moves the carried record one place on. */
  lemma SwapStep(s: seq<Country>, m: nat, j: nat, col: Column, desc: bool)
    requires j + 1 < m && PassState(s, m, j, col, desc) && OutOfOrder(s[j], s[j + 1], col, desc)
    ensures PassState(SwapAt(s, j), m, j + 1, col, desc)
    ensures multiset(SwapAt(s, j)) == multiset(s) && KeepsKeyGroups(SwapAt(s, j), s, col)
  {
    var t := SwapAt(s, j);
    OutOfOrderAsymmetric(s[j], s[j + 1], col, desc);
    SwapKeepsGroups(s, j, col);
    forall p, q | 0 <= p < q < |t| && m <= q
      ensures !OutOfOrder(t[p], t[q], col, desc)
    {
      var p' := if p == j then j + 1 else if p == j + 1 then j else p;
      assert t[p] == s[p'] && t[q] == s[q];
    }
  }

  /** Without a swap the record at j + 1 is the one carried on. */
  lemma KeepStep(s: seq<Country>, m: nat, j: nat, col: Column, desc: bool)
    requires j + 1 < m && PassState(s, m, j, col, desc) && !OutOfOrder(s[j], s[j + 1], col, desc)
    ensures PassState(s, m, j + 1, col, desc)
  {
    forall p | 0 <= p < j
      ensures !OutOfOrder(s[p], s[j + 1], col, desc)
    {
      InOrderTransitive(s[p], s[j], s[j + 1], col, desc);
    }
  }

  /** One pass of the outer loop: the inner loop over j in range(0, m - 1)
      carries forward a record that no earlier record is out of order with,
      and leaves it at position m - 1. */
  method BubblePass(a: array<Country>, m: nat, col: Column, desc: bool, ghost original: seq<Country>)
    requires 1 <= m <= a.Length
    requires SortedFrom(a[..], m, col, desc)
    requires multiset(a[..]) == multiset(original) && KeepsKeyGroups(a[..], original, col)
    modifies a
    ensures SortedFrom(a[..], m - 1, col, desc)
    ensures multiset(a[..]) == multiset(original) && KeepsKeyGroups(a[..], original, col)
    ensures a[m..] == old(a[m..])
  {
    for j := 0 to m - 1
      invariant PassState(a[..], m, j, col, desc)
      invariant a[m..] == old(a[m..])
      invariant multiset(a[..]) == multiset(original) && KeepsKeyGroups(a[..], original, col)
    {
      if OutOfOrder(a[j], a[j + 1], col, desc) {
        ghost var before := a[..];
        SwapStep(before, m, j, col, desc);
        a[j], a[j + 1] := a[j + 1], a[j];
        assert a[..] == SwapAt(before, j);
      } else {
        KeepStep(a[..], m, j, col, desc);
      }
    }
  }

  /** ordenamiento_burbuja: the list is copied, and n passes of adjacent
      swaps are made on the copy. */
  method BubbleSort(list: seq<Country>, col: Column, desc: bool) returns (sorted: seq<Country>)
    ensures |sorted| == |list| && multiset(sorted) == multiset(list)
    ensures Ordered(sorted, col, desc)
    ensures KeepsKeyGroups(sorted, list, col)
  {
    var a := new Country[|list|](i requires 0 <= i < |list| => list[i]);
    assert a[..] == list;
    var n := a.Length;
    for i := 0 to n
      invariant SortedFrom(a[..], n - i, col, desc)
      invariant multiset(a[..]) == multiset(list) && KeepsKeyGroups(a[..], list, col)
    {
      BubblePass(a, n - i, col, desc, list);
    }
    sorted := a[..];
  }
}
