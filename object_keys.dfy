/** The order in which `Object.keys` lists the own string-keyed properties of an
    ordinary object, section 10.1.11.1 (OrdinaryOwnPropertyKeys) of ECMA-262: the
    keys that are array indices first, in ascending numeric order, then the other
    string keys in the order in which the properties were created. */
module ObjectKeys {
  import opened Seqs

  /** 2^32 - 2: an array index is an integer index below 2^32 - 1. */
  const MaxArrayIndex: nat := 4294967294

  predicate IsDigit(c: char) { '0' <= c <= '9' }

  function DigitValue(c: char): nat {
    if IsDigit(c) then c as int - '0' as int else 0
  }

  /** The number a string of decimal digits denotes. */
  function DigitsValue(s: string): nat {
    if s == [] then 0 else 10 * DigitsValue(s[..|s| - 1]) + DigitValue(s[|s| - 1])
  }

  predicate AllDigits(s: string) {
    forall i :: 0 <= i < |s| ==> IsDigit(s[i])
  }

  /** The canonical decimal form of a natural number: digits only, and no leading
      zero unless the string is "0". */
  predicate IsCanonicalDigits(s: string) {
    |s| >= 1 && AllDigits(s) && (|s| == 1 || s[0] != '0')
  }

  /** A property key that is an array index ("0", "3", "10", but not "03", "-1" or
      "4294967295"). */
  predicate IsArrayIndex(k: string) {
    IsCanonicalDigits(k) && DigitsValue(k) <= MaxArrayIndex
  }

  predicate IsNamedKey(k: string) { !IsArrayIndex(k) }

  // ---------------------------------------------------------------------------
  // Distinct canonical numerals denote distinct numbers

  function Pow10(n: nat): (r: nat)
    ensures r >= 1
  {
    if n == 0 then 1 else 10 * Pow10(n - 1)
  }

  lemma {:induction false} DigitsValueBelow(s: string)
    requires AllDigits(s)
    ensures DigitsValue(s) < Pow10(|s|)
  {
    if s != [] {
      DigitsValueBelow(s[..|s| - 1]);
    }
  }

  lemma {:induction false} DigitsValueAtLeast(s: string)
    requires AllDigits(s) && |s| >= 1 && s[0] != '0'
    ensures DigitsValue(s) >= Pow10(|s| - 1)
  {
    if |s| > 1 {
      var p := s[..|s| - 1];
      assert p[0] == s[0];
      DigitsValueAtLeast(p);
    }
  }

  /** Digit strings of equal length and equal value are equal. */
  lemma {:induction false} SameLengthSameValue(a: string, b: string)
    requires AllDigits(a) && AllDigits(b) && |a| == |b|
    requires DigitsValue(a) == DigitsValue(b)
    ensures a == b
  {
    if a != [] {
      var n := |a| - 1;
      var pa, pb := a[..n], b[..n];
      LastDigit(a);
      LastDigit(b);
      assert a[n] == b[n] by {
        assert DigitValue(a[n]) == DigitValue(b[n]);
      }
      SameLengthSameValue(pa, pb);
      assert a == pa + [a[n]] && b == pb + [b[n]];
    }
  }

  /** The last digit is the value modulo 10, the others the value divided by 10. */
  lemma LastDigit(s: string)
    requires AllDigits(s) && s != []
    ensures DigitValue(s[|s| - 1]) == DigitsValue(s) % 10
    ensures DigitsValue(s[..|s| - 1]) == DigitsValue(s) / 10
  {
    var q, d := DigitsValue(s[..|s| - 1]), DigitValue(s[|s| - 1]);
    assert IsDigit(s[|s| - 1]);
    assert 0 <= d < 10;
    assert DigitsValue(s) == 10 * q + d;
  }

  lemma CanonicalLengthMonotone(a: string, b: string)
    requires IsCanonicalDigits(a) && IsCanonicalDigits(b) && |a| < |b|
    ensures DigitsValue(a) < DigitsValue(b)
  {
    DigitsValueBelow(a);
    DigitsValueAtLeast(b);
    PowMonotone(|a|, |b| - 1);
  }

  lemma {:induction false} PowMonotone(m: nat, n: nat)
    requires m <= n
    ensures Pow10(m) <= Pow10(n)
  {
    if m < n {
      PowMonotone(m, n - 1);
    }
  }

  /** Distinct canonical numerals denote distinct numbers. */
  lemma CanonicalInjective(a: string, b: string)
    requires IsCanonicalDigits(a) && IsCanonicalDigits(b) && a != b
    ensures DigitsValue(a) != DigitsValue(b)
  {
    if |a| < |b| {
      CanonicalLengthMonotone(a, b);
    } else if |b| < |a| {
      CanonicalLengthMonotone(b, a);
    } else if DigitsValue(a) == DigitsValue(b) {
      SameLengthSameValue(a, b);
    }
  }

  // ---------------------------------------------------------------------------
  // Key order

  predicate SortedByIndex(s: seq<string>) {
    forall i, j :: 0 <= i < j < |s| ==> DigitsValue(s[i]) <= DigitsValue(s[j])
  }

  predicate AtMostAll(k: string, s: seq<string>) {
    forall i :: 0 <= i < |s| ==> DigitsValue(k) <= DigitsValue(s[i])
  }

  lemma SortedCons(k: string, s: seq<string>)
    requires SortedByIndex(s) && AtMostAll(k, s)
    ensures SortedByIndex([k] + s)
  {
  }

  /** Inserts `k` before the first key with a larger or equal numeric value. */
  function InsertByIndex(k: string, s: seq<string>): seq<string> {
    if s == [] || DigitsValue(k) <= DigitsValue(s[0]) then [k] + s
    else [s[0]] + InsertByIndex(k, s[1..])
  }

  /** Insertion adds exactly one copy of `k`. */
  lemma {:induction false} InsertByIndexMultiset(k: string, s: seq<string>)
    ensures multiset(InsertByIndex(k, s)) == multiset(s) + multiset{k}
  {
    if !(s == [] || DigitsValue(k) <= DigitsValue(s[0])) {
      InsertByIndexMultiset(k, s[1..]);
      assert s == [s[0]] + s[1..];
    }
  }

  /** Insertion into an ascending list keeps it ascending. */
  lemma {:induction false} InsertByIndexSorted(k: string, s: seq<string>)
    requires SortedByIndex(s)
    ensures SortedByIndex(InsertByIndex(k, s))
  {
    if s == [] || DigitsValue(k) <= DigitsValue(s[0]) {
      SortedCons(k, s);
    } else {
      var x, tail := s[0], s[1..];
      var rest := InsertByIndex(k, tail);
      InsertByIndexSorted(k, tail);
      InsertByIndexMultiset(k, tail);
      assert AtMostAll(x, tail);
      AtMostAllMultiset(x, tail, k, rest);
      SortedCons(x, rest);
    }
  }

  /** A lower bound on the values of `tail` and of `k` bounds the values of a
      rearrangement of `tail` with `k` added. */
  lemma AtMostAllMultiset(x: string, tail: seq<string>, k: string, rest: seq<string>)
    requires AtMostAll(x, tail) && DigitsValue(x) <= DigitsValue(k)
    requires multiset(rest) == multiset(tail) + multiset{k}
    ensures AtMostAll(x, rest)
  {
    forall i | 0 <= i < |rest| ensures DigitsValue(x) <= DigitsValue(rest[i]) {
      assert rest[i] in multiset(rest);
      if rest[i] != k {
        assert rest[i] in multiset(tail);
        assert rest[i] in tail;
      }
    }
  }

  /** The array-index keys in ascending numeric order (`SortByIndexSpec`). */
  function SortByIndex(s: seq<string>): seq<string> {
    if s == [] then [] else InsertByIndex(s[0], SortByIndex(s[1..]))
  }

  /** The sort yields an ascending rearrangement of its input. */
  lemma {:induction false} SortByIndexSpec(s: seq<string>)
    ensures SortedByIndex(SortByIndex(s))
    ensures multiset(SortByIndex(s)) == multiset(s)
  {
    if s != [] {
      var rest := SortByIndex(s[1..]);
      SortByIndexSpec(s[1..]);
      InsertByIndexSorted(s[0], rest);
      InsertByIndexMultiset(s[0], rest);
      assert s == [s[0]] + s[1..];
    }
  }

  /** `Object.keys` of an object whose properties were created with the keys of
      `creation`, in that order. */
  function OwnPropertyKeys(creation: seq<string>): seq<string> {
    SortByIndex(Filter(creation, IsArrayIndex)) + Filter(creation, IsNamedKey)
  }

  lemma DistinctMultiset<T>(a: seq<T>, b: seq<T>)
    requires Distinct(a) && multiset(a) == multiset(b)
    ensures Distinct(b)
  {
    DistinctCounts(a);
    forall i, j | 0 <= i < j < |b| ensures b[i] != b[j] {
      if b[i] == b[j] {
        TwoOccurrences(b, i, j);
      }
    }
  }

  lemma {:induction false} DistinctCounts<T>(a: seq<T>)
    requires Distinct(a)
    ensures forall x :: multiset(a)[x] <= 1
  {
    if a != [] {
      var n := |a| - 1;
      assert a == a[..n] + [a[n]];
      assert a[n] !in a[..n];
      DistinctCounts(a[..n]);
    }
  }

  lemma TwoOccurrences<T>(b: seq<T>, i: nat, j: nat)
    requires i < j < |b| && b[i] == b[j]
    ensures multiset(b)[b[i]] >= 2
  {
    assert b == b[..i] + [b[i]] + b[i + 1..j] + [b[j]] + b[j + 1..];
  }

  lemma DistinctFilter<T(!new)>(s: seq<T>, p: T -> bool)
    requires Distinct(s)
    ensures Distinct(Filter(s, p))
  {
    if s != [] {
      var n := |s| - 1;
      assert s[n] !in s[..n];
      DistinctFilter(s[..n], p);
    }
  }

  lemma SortedIndexKeys(creation: seq<string>)
    requires Distinct(creation)
    ensures Distinct(SortByIndex(Filter(creation, IsArrayIndex)))
    ensures forall k :: k in SortByIndex(Filter(creation, IsArrayIndex)) <==> k in creation && IsArrayIndex(k)
  {
    var idx := Filter(creation, IsArrayIndex);
    var sorted := SortByIndex(idx);
    SortByIndexSpec(idx);
    DistinctFilter(creation, IsArrayIndex);
    DistinctMultiset(idx, sorted);
    forall k ensures k in sorted <==> k in idx {
      assert k in sorted <==> k in multiset(sorted);
      assert k in idx <==> k in multiset(idx);
    }
  }

  /** Every created key is listed exactly once. */
  lemma OwnPropertyKeysListsEachOnce(creation: seq<string>)
    requires Distinct(creation)
    ensures |OwnPropertyKeys(creation)| == |creation|
    ensures Distinct(OwnPropertyKeys(creation))
    ensures forall k :: k in OwnPropertyKeys(creation) <==> k in creation
  {
    var named := Filter(creation, IsNamedKey);
    var sorted := SortByIndex(Filter(creation, IsArrayIndex));
    var out := sorted + named;
    SortedIndexKeys(creation);
    SortByIndexSpec(Filter(creation, IsArrayIndex));
    DistinctFilter(creation, IsNamedKey);
    forall i, j | 0 <= i < j < |out| ensures out[i] != out[j] {
      if j >= |sorted| && i < |sorted| {
        assert out[i] in sorted && out[j] in named;
      }
    }
    FilterPartition(creation);
    assert |multiset(sorted)| == |multiset(Filter(creation, IsArrayIndex))|;
  }

  /** Each array index precedes every other key, and the array indices ascend
      strictly. */
  lemma OwnPropertyKeysIndicesFirst(creation: seq<string>)
    requires Distinct(creation)
    ensures forall i, j :: 0 <= i < j < |OwnPropertyKeys(creation)| && IsArrayIndex(OwnPropertyKeys(creation)[j]) ==>
      (IsArrayIndex(OwnPropertyKeys(creation)[i])
       && DigitsValue(OwnPropertyKeys(creation)[i]) < DigitsValue(OwnPropertyKeys(creation)[j]))
  {
    var named := Filter(creation, IsNamedKey);
    var sorted := SortByIndex(Filter(creation, IsArrayIndex));
    var out := sorted + named;
    SortedIndexKeys(creation);
    SortByIndexSpec(Filter(creation, IsArrayIndex));
    forall i, j | 0 <= i < j < |out| && IsArrayIndex(out[j])
      ensures IsArrayIndex(out[i]) && DigitsValue(out[i]) < DigitsValue(out[j])
    {
      assert j < |sorted|;
      assert out[i] == sorted[i] && out[j] == sorted[j];
      assert sorted[i] in sorted && sorted[j] in sorted;
      CanonicalInjective(sorted[i], sorted[j]);
    }
  }

  /** The keys that are not array indices keep their creation order. */
  lemma OwnPropertyKeysNamedOrder(creation: seq<string>)
    ensures Filter(OwnPropertyKeys(creation), IsNamedKey) == Filter(creation, IsNamedKey)
  {
    var named := Filter(creation, IsNamedKey);
    var idx := Filter(creation, IsArrayIndex);
    var sorted := SortByIndex(idx);
    SortByIndexSpec(idx);
    forall k | k in sorted ensures !IsNamedKey(k) {
      assert k in multiset(sorted);
      assert k in idx;
    }
    FilterConcat(sorted, named, IsNamedKey);
    FilterNone(sorted, IsNamedKey);
    FilterAll(named, IsNamedKey);
  }

  /** The array-index keys and the other keys together are all the keys. */
  lemma FilterPartition(s: seq<string>)
    ensures |Filter(s, IsArrayIndex)| + |Filter(s, IsNamedKey)| == |s|
  {
    if s != [] {
      FilterPartition(s[..|s| - 1]);
    }
  }
}
