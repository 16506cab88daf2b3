/** Small sequence vocabulary shared by the models: an optional value (JavaScript's
    `null`/`undefined`), order-preserving filtering (`Array.prototype.filter`) and
    duplicate removal in first-occurrence order (`[...new Set(xs)]`). */
module Seqs {

  datatype Option<T> = None | Some(value: T)

  predicate Distinct<T(==)>(s: seq<T>) {
    forall i, j :: 0 <= i < j < |s| ==> s[i] != s[j]
  }

  /** The elements of `s` that satisfy `p`, in their original order. */
  function Filter<T(!new)>(s: seq<T>, p: T -> bool): (r: seq<T>)
    ensures |r| <= |s|
    ensures forall x :: x in r <==> x in s && p(x)
  {
    if s == [] then []
    else
      assert s == s[..|s| - 1] + [s[|s| - 1]];
      Filter(s[..|s| - 1], p) + (if p(s[|s| - 1]) then [s[|s| - 1]] else [])
  }

  lemma {:induction false} FilterConcat<T(!new)>(a: seq<T>, b: seq<T>, p: T -> bool)
    ensures Filter(a + b, p) == Filter(a, p) + Filter(b, p)
    decreases |b|
  {
    if b != [] {
      var b' := b[..|b| - 1];
      var x := b[|b| - 1];
      assert (a + b)[..|a + b| - 1] == a + b';
      assert (a + b)[|a + b| - 1] == x;
      var tail := if p(x) then [x] else [];
      calc {
        Filter(a + b, p);
        Filter(a + b', p) + tail;
        { FilterConcat(a, b', p); }
        Filter(a, p) + Filter(b', p) + tail;
        Filter(a, p) + (Filter(b', p) + tail);
        { assert b == b' + [x]; }
        Filter(a, p) + Filter(b, p);
      }
    } else {
      assert a + b == a;
    }
  }

  lemma FilterAll<T(!new)>(s: seq<T>, p: T -> bool)
    requires forall x :: x in s ==> p(x)
    ensures Filter(s, p) == s
  {
    if s != [] {
      assert s[..|s| - 1] + [s[|s| - 1]] == s;
      FilterAll(s[..|s| - 1], p);
    }
  }

  lemma FilterSingleton<T(!new)>(x: T, p: T -> bool)
    ensures Filter([x], p) == if p(x) then [x] else []
  {
    assert [x][..0] == [];
  }

  lemma FilterSnoc<T(!new)>(s: seq<T>, x: T, p: T -> bool)
    ensures Filter(s + [x], p) == Filter(s, p) + (if p(x) then [x] else [])
  {
    assert (s + [x])[..|s|] == s;
  }

  lemma ConcatAssoc<T>(a: seq<T>, b: seq<T>, c: seq<T>)
    ensures a + (b + c) == (a + b) + c
  {
  }

  lemma FilterCons<T(!new)>(y: T, s: seq<T>, p: T -> bool)
    ensures Filter([y] + s, p) == (if p(y) then [y] else []) + Filter(s, p)
  {
    FilterConcat([y], s, p);
    FilterSingleton(y, p);
  }

  lemma FilterNone<T(!new)>(s: seq<T>, p: T -> bool)
    requires forall x :: x in s ==> !p(x)
    ensures Filter(s, p) == []
  {
  }

  /** `s.map(f)`. Position `i` of the result is `f(s[i])`, by `MapAt`. */
  function Map<T(!new), U>(s: seq<T>, f: T --> U): (r: seq<U>)
    requires forall x :: f.requires(x)
    ensures |r| == |s|
  {
    if s == [] then [] else Map(s[..|s| - 1], f) + [f(s[|s| - 1])]
  }

  lemma {:induction false} MapAt<T(!new), U>(s: seq<T>, f: T --> U, i: nat)
    requires forall x :: f.requires(x)
    requires i < |s|
    ensures Map(s, f)[i] == f(s[i])
  {
    var n := |s| - 1;
    if i < n {
      MapAt(s[..n], f, i);
      assert s[..n][i] == s[i];
    }
  }

  lemma {:induction false} MapConcat<T(!new), U>(a: seq<T>, b: seq<T>, f: T --> U)
    requires forall x :: f.requires(x)
    ensures Map(a + b, f) == Map(a, f) + Map(b, f)
    decreases |b|
  {
    if b != [] {
      var n := |b| - 1;
      assert (a + b)[..|a + b| - 1] == a + b[..n];
      assert (a + b)[|a + b| - 1] == b[n];
      MapConcat(a, b[..n], f);
    } else {
      assert a + b == a;
    }
  }

  /** The distinct elements of `s`, each at the position of its first occurrence;
      this is the iteration order of a JavaScript `Set` built from `s`. */
  function Dedup<T(==,!new)>(s: seq<T>): (r: seq<T>)
    ensures Distinct(r)
    ensures forall x :: x in r <==> x in s
    ensures |r| <= |s|
  {
    if s == [] then []
    else
      var d := Dedup(s[..|s| - 1]);
      assert forall x :: x in s <==> x in s[..|s| - 1] || x == s[|s| - 1];
      if s[|s| - 1] in d then d else d + [s[|s| - 1]]
  }

  /** Index of the first occurrence of `x` in `s`. */
  function FirstIndex<T(==)>(s: seq<T>, x: T): (k: nat)
    requires x in s
    ensures k < |s| && s[k] == x
    ensures forall j :: 0 <= j < k ==> s[j] != x
  {
    if s[0] == x then 0 else 1 + FirstIndex(s[1..], x)
  }

  lemma {:induction false} FirstIndexPrefix<T>(s: seq<T>, n: nat, x: T)
    requires n <= |s|
    requires x in s[..n]
    ensures FirstIndex(s[..n], x) == FirstIndex(s, x)
  {
    var k, k' := FirstIndex(s[..n], x), FirstIndex(s, x);
    assert s[k] == x;
    forall j | 0 <= j < k ensures s[j] != x {
      assert s[..n][j] == s[j];
    }
  }

  /** `Dedup` lists the distinct elements by increasing first occurrence. */
  lemma {:induction false} DedupFirstOccurrence<T(!new)>(s: seq<T>)
    ensures forall i, j :: 0 <= i < j < |Dedup(s)| ==>
      FirstIndex(s, Dedup(s)[i]) < FirstIndex(s, Dedup(s)[j])
  {
    if s != [] {
      var n := |s| - 1;
      var d := Dedup(s[..n]);
      DedupFirstOccurrence(s[..n]);
      forall x | x in d ensures FirstIndex(s, x) == FirstIndex(s[..n], x) && FirstIndex(s, x) < n {
        FirstIndexPrefix(s, n, x);
      }
      if s[n] !in d {
        assert s[n] !in s[..n];
        assert FirstIndex(s, s[n]) == n;
      }
    }
  }

  /** Appending a block of copies of one new element (`k`, absent from `a`) adds
      exactly `k` to the distinct list. */
  lemma {:induction false} DedupAppendBlock<T(!new)>(a: seq<T>, b: seq<T>, k: T)
    requires b != [] && forall x :: x in b ==> x == k
    requires k !in a
    ensures Dedup(a + b) == Dedup(a) + [k]
    decreases |b|
  {
    var n := |a + b| - 1;
    assert (a + b)[..n] == a + b[..|b| - 1];
    assert b[|b| - 1] in b;
    assert (a + b)[n] == b[|b| - 1] == k;
    if |b| == 1 {
      assert a + b[..0] == a;
    } else {
      var b' := b[..|b| - 1];
      forall x | x in b' ensures x == k {
        assert x in b;
      }
      DedupAppendBlock(a, b', k);
    }
  }
}
