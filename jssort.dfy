/**
 * The ordering used by JavaScript's `Array.prototype.sort()` when it is called
 * without a comparator on an array of numbers: every element is converted to
 * its decimal string and the strings are compared code unit by code unit, so
 * that 10 sorts before 2. The sort is stable.
 */
module JsSort {

  /** The decimal digit character for d. */
  function DigitChar(d: nat): char
    requires d < 10
  {
    (48 + d) as char
  }

  /** The decimal representation of x, as `String(x)` produces it. */
  function DecimalString(x: nat): (r: string)
    ensures 1 <= |r|
    ensures forall i :: 0 <= i < |r| ==> '0' <= r[i] <= '9'
  {
    if x < 10 then [DigitChar(x)] else DecimalString(x / 10) + [DigitChar(x % 10)]
  }

  /** JavaScript's `a <= b` on strings: lexicographic order by code unit. */
  predicate StrLe(a: string, b: string)
  {
    if a == [] then true
    else if b == [] then false
    else if a[0] != b[0] then a[0] < b[0]
    else StrLe(a[1..], b[1..])
  }

  /** The comparison `.sort()` uses on two numbers. */
  predicate DecimalLe(x: nat, y: nat)
  {
    StrLe(DecimalString(x), DecimalString(y))
  }

  lemma {:induction false} StrLeTotal(a: string, b: string)
    ensures StrLe(a, b) || StrLe(b, a)
  {
    if a != [] && b != [] && a[0] == b[0] {
      StrLeTotal(a[1..], b[1..]);
    }
  }

  lemma {:induction false} StrLeTransitive(a: string, b: string, c: string)
    requires StrLe(a, b) && StrLe(b, c)
    ensures StrLe(a, c)
  {
    if a != [] && b != [] && c != [] && a[0] == b[0] && b[0] == c[0] {
      StrLeTransitive(a[1..], b[1..], c[1..]);
    }
  }

  /** Places x in front of the first element it does not follow. */
  function Insert(x: nat, t: seq<nat>): seq<nat>
  {
    if t == [] then [x]
    else if DecimalLe(x, t[0]) then [x] + t
    else [t[0]] + Insert(x, t[1..])
  }

  /** `[...s].sort()` on an array of non-negative integers. */
  function DefaultSort(s: seq<nat>): seq<nat>
  {
    if s == [] then [] else Insert(s[0], DefaultSort(s[1..]))
  }

  predicate OrderedAsStrings(s: seq<nat>)
  {
    forall i, j :: 0 <= i < j < |s| ==> DecimalLe(s[i], s[j])
  }

  lemma {:induction false} InsertPermutation(x: nat, t: seq<nat>)
    ensures |Insert(x, t)| == |t| + 1
    ensures multiset(Insert(x, t)) == multiset(t) + multiset{x}
  {
    if t != [] && !DecimalLe(x, t[0]) {
      InsertPermutation(x, t[1..]);
      assert t == [t[0]] + t[1..];
    }
  }

  lemma {:induction false} InsertOrdered(x: nat, t: seq<nat>)
    requires OrderedAsStrings(t)
    ensures OrderedAsStrings(Insert(x, t))
  {
    if t == [] {
    } else if DecimalLe(x, t[0]) {
      forall j | 0 <= j < |t|
        ensures DecimalLe(x, t[j])
      {
        if j > 0 {
          StrLeTransitive(DecimalString(x), DecimalString(t[0]), DecimalString(t[j]));
        }
      }
    } else {
      var rest := Insert(x, t[1..]);
      InsertOrdered(x, t[1..]);
      InsertPermutation(x, t[1..]);
      StrLeTotal(DecimalString(x), DecimalString(t[0]));
      forall j | 0 <= j < |rest|
        ensures DecimalLe(t[0], rest[j])
      {
        assert rest[j] in multiset(rest);
        if rest[j] != x {
          assert rest[j] in multiset(t[1..]);
          var m :| 0 <= m < |t[1..]| && t[1..][m] == rest[j];
          assert t[m + 1] == rest[j];
        }
      }
    }
  }

  /** The default sort only rearranges its input. */
  lemma {:induction false} DefaultSortIsPermutation(s: seq<nat>)
    ensures |DefaultSort(s)| == |s|
    ensures multiset(DefaultSort(s)) == multiset(s)
  {
    if s != [] {
      DefaultSortIsPermutation(s[1..]);
      InsertPermutation(s[0], DefaultSort(s[1..]));
      assert s == [s[0]] + s[1..];
    }
  }

  /** The default sort orders its result by decimal string. */
  lemma {:induction false} DefaultSortOrdersByDecimalString(s: seq<nat>)
    ensures OrderedAsStrings(DefaultSort(s))
  {
    if s != [] {
      DefaultSortOrdersByDecimalString(s[1..]);
      InsertOrdered(s[0], DefaultSort(s[1..]));
    }
  }

  /** On numbers below 10 the decimal-string order is the numeric order. */
  lemma DecimalLeSmall(x: nat, y: nat)
    requires x < 10 && y < 10
    ensures DecimalLe(x, y) <==> x <= y
  {
    var a, b := DecimalString(x), DecimalString(y);
    assert a == [DigitChar(x)] && b == [DigitChar(y)];
    assert a[1..] == [] && b[1..] == [];
    if x == y {
      assert StrLe(a[1..], b[1..]);
    } else {
      assert a[0] != b[0] && (a[0] < b[0] <==> x < y);
      assert StrLe(a, b) == (a[0] < b[0]);
    }
  }

  /** When every element is a single digit, the default sort is numeric ascending. */
  lemma DefaultSortSmallIsNumeric(s: seq<nat>)
    requires forall i :: 0 <= i < |s| ==> s[i] < 10
    ensures forall i, j :: 0 <= i < j < |DefaultSort(s)| ==> DefaultSort(s)[i] <= DefaultSort(s)[j]
  {
    var r := DefaultSort(s);
    DefaultSortIsPermutation(s);
    DefaultSortOrdersByDecimalString(s);
    forall k | 0 <= k < |r|
      ensures r[k] < 10
    {
      assert r[k] in multiset(s);
    }
    forall i, j | 0 <= i < j < |r|
      ensures r[i] <= r[j]
    {
      DecimalLeSmall(r[i], r[j]);
    }
  }

  /** With a two-digit element the order is not numeric: 10 is placed before 2. */
  lemma DefaultSortTenBeforeTwo()
    ensures DefaultSort([2, 10]) == [10, 2]
  {
    assert DecimalString(10) == ['1', '0'];
    assert !DecimalLe(2, 10);
    assert DefaultSort([10]) == [10];
  }
}
