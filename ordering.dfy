/**
 * The two orders the resolver sorts with, and the sort itself.
 *
 * `Array.prototype.sort()` without a comparator compares the UTF-16
 * encodings of two strings code unit by code unit, a shorter prefix first:
 * that is `LexLe`. A Dafny `char` is a Unicode scalar value, so a string is
 * first encoded (`Utf16`); a character above U+FFFF becomes a surrogate
 * pair, which sorts below U+E000..U+FFFF, as it does in JavaScript. With a
 * comparator (`localeCompare` on city names) the order is whatever the
 * comparator says; the model takes it as a parameter that must be a total
 * preorder. The sort is stable, as the language has required since 2019:
 * `SortBy` is an insertion sort, and `SortByStable` proves that items the
 * order ties keep their input order.
 */
module Ordering {

  /** The UTF-16 code units of one character: itself below U+10000, a surrogate pair above. */
  function CodeUnits(c: char): (units: seq<int>)
    ensures 1 <= |units| <= 2
    ensures forall k :: 0 <= k < |units| ==> 0 <= units[k] < 0x10000
    ensures |units| == 2 <==> 0xD800 <= units[0] < 0xDC00
    ensures |units| == 2 <==> c as int >= 0x10000
    ensures c as int < 0x10000 ==> units == [c as int]
    ensures |units| == 2 ==>
              && 0xDC00 <= units[1] < 0xE000
              && 0x10000 + (units[0] - 0xD800) * 0x400 + (units[1] - 0xDC00) == c as int
  {
    var n := c as int;
    if n < 0x10000 then [n]
    else
      var x := n - 0x10000;
      assert x == 0x400 * (x / 0x400) + x % 0x400;
      [0xD800 + x / 0x400, 0xDC00 + x % 0x400]
  }

  /** The UTF-16 encoding of a string. */
  function Utf16(s: string): (units: seq<int>)
    ensures |s| <= |units| <= 2 * |s|
    ensures forall k :: 0 <= k < |units| ==> 0 <= units[k] < 0x10000
  {
    if s == [] then [] else CodeUnits(s[0]) + Utf16(s[1..])
  }

  /**
   * Code-unit sequence `a` sorts before or equal to `b`: `a` is a prefix of
   * `b`, or at the first position where they differ `a` has the smaller unit.
   */
  predicate UnitsLe(a: seq<int>, b: seq<int>): (le: bool)
    ensures le <==> a <= b || FirstDifferenceBelow(a, b)
    decreases |a|
  {
    if a == [] then true
    else if b == [] then false
    else
      UnitsLeStep(a, b);
      a[0] < b[0] || (a[0] == b[0] && UnitsLe(a[1..], b[1..]))
  }

  /** `a` and `b` first differ at a position where `a` has the smaller unit. */
  ghost predicate FirstDifferenceBelow(a: seq<int>, b: seq<int>) {
    exists k :: 0 <= k < |a| && k < |b| && a[..k] == b[..k] && a[k] < b[k]
  }

  /** How the prefix order and the first difference look past the first units. */
  lemma UnitsLeStep(a: seq<int>, b: seq<int>)
    requires a != [] && b != []
    ensures a[0] < b[0] ==> FirstDifferenceBelow(a, b)
    ensures a[0] > b[0] ==> !(a <= b) && !FirstDifferenceBelow(a, b)
    ensures a[0] == b[0] ==> (a <= b <==> a[1..] <= b[1..])
    ensures a[0] == b[0] ==> (FirstDifferenceBelow(a, b) <==> FirstDifferenceBelow(a[1..], b[1..]))
  {
    if a[0] < b[0] {
      assert a[..0] == b[..0];
    }
    if a[0] == b[0] {
      assert a == [a[0]] + a[1..] && b == [b[0]] + b[1..];
      FirstDifferenceTail(a, b);
    }
  }

  lemma FirstDifferenceTail(a: seq<int>, b: seq<int>)
    requires a != [] && b != [] && a[0] == b[0]
    ensures FirstDifferenceBelow(a, b) <==> FirstDifferenceBelow(a[1..], b[1..])
  {
    if FirstDifferenceBelow(a, b) {
      var k :| 0 <= k < |a| && k < |b| && a[..k] == b[..k] && a[k] < b[k];
      FirstDifferenceDrop(a, b, k);
    }
    if FirstDifferenceBelow(a[1..], b[1..]) {
      var k :| 0 <= k < |a[1..]| && k < |b[1..]| && a[1..][..k] == b[1..][..k] && a[1..][k] < b[1..][k];
      FirstDifferenceAdd(a, b, k);
    }
  }

  lemma FirstDifferenceDrop(a: seq<int>, b: seq<int>, k: nat)
    requires 0 < k < |a| && k < |b| && a[..k] == b[..k] && a[k] < b[k]
    ensures FirstDifferenceBelow(a[1..], b[1..])
  {
    var j := k - 1;
    assert a[1..][..j] == a[..k][1..] && b[1..][..j] == b[..k][1..];
    assert a[1..][j] == a[k] && b[1..][j] == b[k];
  }

  lemma FirstDifferenceAdd(a: seq<int>, b: seq<int>, k: nat)
    requires a != [] && b != [] && a[0] == b[0]
    requires k < |a| - 1 && k < |b| - 1 && a[1..][..k] == b[1..][..k] && a[1..][k] < b[1..][k]
    ensures FirstDifferenceBelow(a, b)
  {
    assert a[..k + 1] == [a[0]] + a[1..][..k];
    assert b[..k + 1] == [b[0]] + b[1..][..k];
    assert a[k + 1] == a[1..][k] && b[k + 1] == b[1..][k];
  }

  /** `a` sorts before or equal to `b` under the default string order. */
  predicate LexLe(a: string, b: string): (le: bool)
    ensures a <= b ==> le
    ensures a != [] && b != [] && a[0] != b[0] ==> (le <==> UnitsLe(CodeUnits(a[0]), CodeUnits(b[0])))
  {
    EncodedOrder(a, b);
    UnitsLe(Utf16(a), Utf16(b))
  }

  /** A prefix sorts first, and two different first characters decide by their code units. */
  lemma EncodedOrder(a: string, b: string)
    ensures a <= b ==> UnitsLe(Utf16(a), Utf16(b))
    ensures a != [] && b != [] && a[0] != b[0] ==>
              (UnitsLe(Utf16(a), Utf16(b)) <==> UnitsLe(CodeUnits(a[0]), CodeUnits(b[0])))
  {
    if a <= b {
      Utf16Append(a, b[|a|..]);
      assert a + b[|a|..] == b;
    }
    if a != [] && b != [] && a[0] != b[0] {
      FirstCharactersDecide(a, b);
    }
  }

  lemma FirstCharactersDecide(a: string, b: string)
    requires a != [] && b != [] && a[0] != b[0]
    ensures UnitsLe(Utf16(a), Utf16(b)) <==> UnitsLe(CodeUnits(a[0]), CodeUnits(b[0]))
  {
    var p, q := CodeUnits(a[0]), CodeUnits(b[0]);
    CodeUnitsFirstDifference(a[0], b[0]);
    if p[0] != q[0] {
      UnitsLeDecidedAt(p, q, Utf16(a[1..]), Utf16(b[1..]), 0);
    } else {
      UnitsLeDecidedAt(p, q, Utf16(a[1..]), Utf16(b[1..]), 1);
    }
  }

  /** The encodings of two different characters differ in their first unit, or are two pairs that differ in the second. */
  lemma CodeUnitsFirstDifference(c: char, d: char)
    requires c != d
    ensures var p, q := CodeUnits(c), CodeUnits(d);
      p[0] != q[0] || (|p| == 2 && |q| == 2 && p[..1] == q[..1] && p[1] != q[1])
  {
  }

  /** The encoding of a concatenation is the concatenation of the encodings. */
  lemma {:induction false} Utf16Append(a: string, b: string)
    ensures Utf16(a + b) == Utf16(a) + Utf16(b)
    decreases |a|
  {
    if a == [] {
      assert a + b == b;
    } else {
      var c, rest := a[0], a[1..];
      assert a == [c] + rest && a + b == [c] + (rest + b);
      Utf16Append(rest, b);
      Utf16Cons(c, rest + b);
      Utf16Cons(c, rest);
      ConcatAssociative(CodeUnits(c), Utf16(rest), Utf16(b));
    }
  }

  lemma ConcatAssociative<T>(x: seq<T>, y: seq<T>, z: seq<T>)
    ensures x + (y + z) == (x + y) + z
  {
  }

  lemma Utf16Cons(c: char, s: string)
    ensures Utf16([c] + s) == CodeUnits(c) + Utf16(s)
  {
    assert ([c] + s)[1..] == s;
  }

  /** Two unit sequences that first differ at `j` are ordered by that position, whatever follows them. */
  lemma UnitsLeDecidedAt(p: seq<int>, q: seq<int>, x: seq<int>, y: seq<int>, j: nat)
    requires j < |p| && j < |q| && p[..j] == q[..j] && p[j] != q[j]
    ensures UnitsLe(p + x, q + y) <==> p[j] < q[j]
    ensures UnitsLe(p, q) <==> p[j] < q[j]
  {
    DecidedAt(p, q, j);
    assert (p + x)[..j] == p[..j] && (q + y)[..j] == q[..j];
    DecidedAt(p + x, q + y, j);
  }

  lemma DecidedAt(a: seq<int>, b: seq<int>, j: nat)
    requires j < |a| && j < |b| && a[..j] == b[..j] && a[j] != b[j]
    ensures a <= b || FirstDifferenceBelow(a, b) <==> a[j] < b[j]
  {
    assert a[j] != b[j] ==> !(a <= b);
    if FirstDifferenceBelow(a, b) {
      var k :| 0 <= k < |a| && k < |b| && a[..k] == b[..k] && a[k] < b[k];
      if k < j {
        assert a[..j][k] == b[..j][k];
      } else if k > j {
        assert a[..k][j] == b[..k][j];
      }
    }
  }

  ghost predicate Total<T(!new)>(le: (T, T) -> bool) {
    forall a, b :: le(a, b) || le(b, a)
  }

  ghost predicate Transitive<T(!new)>(le: (T, T) -> bool) {
    forall a, b, c :: le(a, b) && le(b, c) ==> le(a, c)
  }

  ghost predicate Antisymmetric<T(!new)>(le: (T, T) -> bool) {
    forall a, b :: le(a, b) && le(b, a) ==> a == b
  }

  /** What a sort needs of its comparison: every two items are comparable, consistently. */
  ghost predicate TotalPreorder<T(!new)>(le: (T, T) -> bool) {
    Total(le) && Transitive(le)
  }

  ghost predicate SortedBy<T>(s: seq<T>, le: (T, T) -> bool) {
    forall i, j :: 0 <= i < j < |s| ==> le(s[i], s[j])
  }

  ghost predicate NoDuplicates<T>(s: seq<T>) {
    forall i, j :: 0 <= i < j < |s| ==> s[i] != s[j]
  }

  lemma {:induction false} UnitsLeTotal(a: seq<int>, b: seq<int>)
    ensures UnitsLe(a, b) || UnitsLe(b, a)
    decreases |a|
  {
    if a != [] && b != [] && a[0] == b[0] {
      UnitsLeTotal(a[1..], b[1..]);
    }
  }

  lemma {:induction false} UnitsLeTransitive(a: seq<int>, b: seq<int>, c: seq<int>)
    requires UnitsLe(a, b) && UnitsLe(b, c)
    ensures UnitsLe(a, c)
    decreases |a|
  {
    if a != [] && a[0] == b[0] && b[0] == c[0] {
      UnitsLeTransitive(a[1..], b[1..], c[1..]);
    }
  }

  lemma {:induction false} UnitsLeAntisymmetric(a: seq<int>, b: seq<int>)
    requires UnitsLe(a, b) && UnitsLe(b, a)
    ensures a == b
    decreases |a|
  {
    if a != [] {
      UnitsLeAntisymmetric(a[1..], b[1..]);
      assert a == [a[0]] + a[1..] && b == [b[0]] + b[1..];
    }
  }

  /** Different characters have different encodings. */
  lemma CodeUnitsInjective(c: char, d: char)
    requires CodeUnits(c) == CodeUnits(d)
    ensures c == d
  {
    var m, n := c as int, d as int;
    if m >= 0x10000 && n >= 0x10000 {
      var x, y := m - 0x10000, n - 0x10000;
      assert x / 0x400 == y / 0x400 && x % 0x400 == y % 0x400;
      assert x == 0x400 * (x / 0x400) + x % 0x400;
      assert y == 0x400 * (y / 0x400) + y % 0x400;
    }
  }

  /** Different strings have different encodings: UTF-16 is uniquely decodable. */
  lemma {:induction false} Utf16Injective(a: string, b: string)
    requires Utf16(a) == Utf16(b)
    ensures a == b
    decreases |a|
  {
    if a != [] && b != [] {
      var ua, ub := CodeUnits(a[0]), CodeUnits(b[0]);
      assert ua[0] == Utf16(a)[0] == Utf16(b)[0] == ub[0];
      assert |ua| == |ub|;
      assert ua == Utf16(a)[..|ua|] == Utf16(b)[..|ub|] == ub;
      CodeUnitsInjective(a[0], b[0]);
      assert Utf16(a[1..]) == Utf16(a)[|ua|..] == Utf16(b)[|ub|..] == Utf16(b[1..]);
      Utf16Injective(a[1..], b[1..]);
      assert a == [a[0]] + a[1..] && b == [b[0]] + b[1..];
    }
  }

  /**
   * As in JavaScript, a character above U+FFFF (encoded from 0xD800 up)
   * sorts before U+FFFF, although its code point is larger.
   */
  lemma SupplementaryCharSortsBelowFFFF()
    ensures LexLe("\U{10000}", "\U{FFFF}") && !LexLe("\U{FFFF}", "\U{10000}")
  {
    assert Utf16("\U{10000}") == [0xD800, 0xDC00] by {
      assert "\U{10000}"[1..] == [];
    }
    assert Utf16("\U{FFFF}") == [0xFFFF] by {
      assert "\U{FFFF}"[1..] == [];
    }
  }

  /** The default string order is a total order. */
  lemma LexLeTotalOrder()
    ensures TotalPreorder(LexLe) && Antisymmetric(LexLe)
  {
    forall a, b ensures LexLe(a, b) || LexLe(b, a) {
      UnitsLeTotal(Utf16(a), Utf16(b));
    }
    forall a, b, c | LexLe(a, b) && LexLe(b, c) ensures LexLe(a, c) {
      UnitsLeTransitive(Utf16(a), Utf16(b), Utf16(c));
    }
    forall a, b | LexLe(a, b) && LexLe(b, a) ensures a == b {
      UnitsLeAntisymmetric(Utf16(a), Utf16(b));
      Utf16Injective(a, b);
    }
  }

  /**
   * Puts `x` into `s` just before the first item it sorts before or equal
   * to, so `x` stays ahead of the items it ties with.
   */
  function Insert<T>(x: T, s: seq<T>, le: (T, T) -> bool): (r: seq<T>)
    ensures multiset(r) == multiset(s) + multiset{x}
  {
    if s == [] then [x]
    else if le(x, s[0]) then [x] + s
    else
      assert s == [s[0]] + s[1..];
      [s[0]] + Insert(x, s[1..], le)
  }

  /** Stable insertion sort of `s` under `le`; a permutation of `s` for any `le`. */
  function SortBy<T>(s: seq<T>, le: (T, T) -> bool): (r: seq<T>)
    ensures multiset(r) == multiset(s)
  {
    if s == [] then []
    else
      assert s == [s[0]] + s[1..];
      Insert(s[0], SortBy(s[1..], le), le)
  }

  lemma {:induction false} InsertSorted<T(!new)>(x: T, s: seq<T>, le: (T, T) -> bool)
    requires TotalPreorder(le) && SortedBy(s, le)
    ensures SortedBy(Insert(x, s, le), le)
  {
    if s != [] && !le(x, s[0]) {
      InsertSorted(x, s[1..], le);
      InsertAbove(s[0], x, s[1..], le);
      ConsSorted(s[0], Insert(x, s[1..], le), le);
    }
  }

  /** A bound below `x` and below every item of `s` is below every item of the insertion. */
  lemma InsertAbove<T>(h: T, x: T, s: seq<T>, le: (T, T) -> bool)
    requires le(h, x) && forall k :: 0 <= k < |s| ==> le(h, s[k])
    ensures forall j :: 0 <= j < |Insert(x, s, le)| ==> le(h, Insert(x, s, le)[j])
  {
    var t := Insert(x, s, le);
    forall j | 0 <= j < |t| ensures le(h, t[j]) {
      assert t[j] in multiset(t);
      if t[j] != x {
        assert t[j] in multiset(s);
        var k :| 0 <= k < |s| && s[k] == t[j];
      }
    }
  }

  lemma ConsSorted<T>(h: T, t: seq<T>, le: (T, T) -> bool)
    requires SortedBy(t, le) && forall j :: 0 <= j < |t| ==> le(h, t[j])
    ensures SortedBy([h] + t, le)
  {
    forall i, j | 0 <= i < j < |[h] + t| ensures le(([h] + t)[i], ([h] + t)[j]) {
      if i > 0 {
        assert ([h] + t)[i] == t[i - 1];
      }
      assert ([h] + t)[j] == t[j - 1];
    }
  }

  /** The sort's output is in order, whenever the order is a total preorder. */
  lemma {:induction false} SortBySorted<T(!new)>(s: seq<T>, le: (T, T) -> bool)
    requires TotalPreorder(le)
    ensures SortedBy(SortBy(s, le), le)
  {
    if s != [] {
      SortBySorted(s[1..], le);
      InsertSorted(s[0], SortBy(s[1..], le), le);
    }
  }

  /** Sorting neither creates nor removes duplicates. */
  lemma SortByNoDuplicates<T>(s: seq<T>, le: (T, T) -> bool)
    ensures NoDuplicates(SortBy(s, le)) <==> NoDuplicates(s)
  {
    if NoDuplicates(s) {
      SameItemsNoDuplicates(s, SortBy(s, le));
    }
    if NoDuplicates(SortBy(s, le)) {
      SameItemsNoDuplicates(SortBy(s, le), s);
    }
  }

  /** Two sequences with the same items either both have duplicates or neither has. */
  lemma SameItemsNoDuplicates<T>(a: seq<T>, b: seq<T>)
    requires multiset(a) == multiset(b) && NoDuplicates(a)
    ensures NoDuplicates(b)
  {
    forall i, j | 0 <= i < j < |b| ensures b[i] != b[j] {
      if b[i] == b[j] {
        assert multiset(b)[b[i]] >= 2 by {
          assert b == b[..i] + [b[i]] + b[i + 1..j] + [b[j]] + b[j + 1..];
        }
        MultiplicityOfDistinct(a, b[i]);
        assert false;
      }
    }
  }

  lemma {:induction false} MultiplicityOfDistinct<T>(s: seq<T>, x: T)
    requires NoDuplicates(s)
    ensures multiset(s)[x] <= 1
  {
    if s != [] {
      assert s == [s[0]] + s[1..];
      MultiplicityOfDistinct(s[1..], x);
      if s[0] == x {
        assert x !in s[1..];
      }
    }
  }

  /** Sorting an already sorted sequence leaves it as it is. */
  lemma {:induction false} SortBySortedIsIdentity<T>(s: seq<T>, le: (T, T) -> bool)
    requires SortedBy(s, le)
    ensures SortBy(s, le) == s
  {
    if s != [] {
      SortBySortedIsIdentity(s[1..], le);
      assert s == [s[0]] + s[1..];
    }
  }

  /** The items of `s` that `le` ties with `x` (each sorts before or equal to the other), in the order of `s`. */
  function Tied<T>(s: seq<T>, x: T, le: (T, T) -> bool): seq<T> {
    if s == [] then []
    else TiedHead(s[0], x, le) + Tied(s[1..], x, le)
  }

  /** Inserting `y` puts it ahead of every item tied with it. */
  lemma {:induction false} InsertTied<T(!new)>(y: T, t: seq<T>, x: T, le: (T, T) -> bool)
    requires Transitive(le)
    ensures Tied(Insert(y, t, le), x, le) == TiedHead(y, x, le) + Tied(t, x, le)
  {
    if t == [] {
      TiedCons(y, [], x, le);
    } else if le(y, t[0]) {
      TiedCons(y, t, x, le);
    } else {
      InsertTied(y, t[1..], x, le);
      NotBothTied(y, t[0], x, le);
      TiedCons(t[0], Insert(y, t[1..], le), x, le);
      TiedCons(t[0], t[1..], x, le);
      SwapEmpty(TiedHead(y, x, le), TiedHead(t[0], x, le), Tied(t[1..], x, le));
      assert t == [t[0]] + t[1..];
    }
  }

  /** Two parts of which at least one is empty can trade places. */
  lemma SwapEmpty<T>(p: seq<T>, q: seq<T>, rest: seq<T>)
    requires p == [] || q == []
    ensures q + (p + rest) == p + (q + rest)
  {
  }

  /** `[a]` when `a` is tied with `x`, otherwise nothing. */
  function TiedHead<T>(a: T, x: T, le: (T, T) -> bool): seq<T> {
    if le(a, x) && le(x, a) then [a] else []
  }

  lemma TiedCons<T>(a: T, s: seq<T>, x: T, le: (T, T) -> bool)
    ensures Tied([a] + s, x, le) == TiedHead(a, x, le) + Tied(s, x, le)
  {
    assert ([a] + s)[1..] == s;
  }

  /** Under a transitive order, two items tied with the same `x` are tied with each other. */
  lemma NotBothTied<T(!new)>(y: T, z: T, x: T, le: (T, T) -> bool)
    requires Transitive(le) && !le(y, z)
    ensures TiedHead(y, x, le) == [] || TiedHead(z, x, le) == []
  {
  }

  /** The sort is stable: the items tied with any `x` come out in their input order. */
  lemma {:induction false} SortByStable<T(!new)>(s: seq<T>, x: T, le: (T, T) -> bool)
    requires TotalPreorder(le)
    ensures Tied(SortBy(s, le), x, le) == Tied(s, x, le)
  {
    if s != [] {
      SortByStable(s[1..], x, le);
      InsertTied(s[0], SortBy(s[1..], le), x, le);
    }
  }
}
