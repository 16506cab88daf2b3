/** `calculateRanksInCategories` of src/components/AllResultsSection.tsx: the rows
    are grouped by their category key, the groups are visited in `Object.keys`
    order, each group is sorted by descending grade (a missing grade counts as 0)
    with a stable sort, and the rows of a group are numbered 1, 2, ... in that
    order. */
module Ranking {
  import opened Seqs
  import opened ObjectKeys
  import opened Records

  /** One row of the ranked list, as the client builds it. */
  datatype RankedResult = RankedResult(id: int, name: string, category: string, grade: int, rank: nat, no: int)

  /** `grade || 0`. */
  function Grade(r: DbRow): int { GradeOrZero(r.grade) }

  /** The ranked row built from `r` at position `rank` of its group: `id` and `no`
      both come from `no`, the category is the grouping key, the grade is
      `grade || 0`. */
  function Format(r: DbRow, rank: nat): RankedResult {
    RankedResult(r.no, r.name, Key(r), Grade(r), rank, r.no)
  }

  // ---------------------------------------------------------------------------
  // The stable sort by descending grade

  predicate SortedDesc(s: seq<DbRow>) {
    forall i, j :: 0 <= i < j < |s| ==> Grade(s[i]) >= Grade(s[j])
  }

  predicate AtLeastAll(g: int, s: seq<DbRow>) {
    forall i :: 0 <= i < |s| ==> g >= Grade(s[i])
  }

  lemma SortedDescCons(x: DbRow, s: seq<DbRow>)
    requires SortedDesc(s) && AtLeastAll(Grade(x), s)
    ensures SortedDesc([x] + s)
  {
  }

  /** Inserts `x` after every row whose grade is at least its own: the comparator
      `(b.grade || 0) - (a.grade || 0)` moves a later row ahead of an earlier one
      only when its grade is strictly higher. */
  function InsertDesc(x: DbRow, s: seq<DbRow>): seq<DbRow> {
    if s == [] || Grade(s[0]) < Grade(x) then [x] + s
    else [s[0]] + InsertDesc(x, s[1..])
  }

  /** Insertion adds exactly one copy of `x`. */
  lemma {:induction false} InsertDescMultiset(x: DbRow, s: seq<DbRow>)
    ensures multiset(InsertDesc(x, s)) == multiset(s) + multiset{x}
  {
    if !(s == [] || Grade(s[0]) < Grade(x)) {
      InsertDescMultiset(x, s[1..]);
      assert s == [s[0]] + s[1..];
    }
  }

  /** Insertion into a list of descending grades keeps the grades descending. */
  lemma {:induction false} InsertDescSorted(x: DbRow, s: seq<DbRow>)
    requires SortedDesc(s)
    ensures SortedDesc(InsertDesc(x, s))
  {
    if s == [] || Grade(s[0]) < Grade(x) {
      SortedDescCons(x, s);
    } else {
      var y, tail := s[0], s[1..];
      var rest := InsertDesc(x, tail);
      InsertDescSorted(x, tail);
      InsertDescMultiset(x, tail);
      assert AtLeastAll(Grade(y), tail);
      AtLeastAllMultiset(Grade(y), tail, x, rest);
      SortedDescCons(y, rest);
    }
  }

  /** A bound on every grade of `tail` and on `x` bounds every grade of a
      rearrangement of `tail` with `x` added. */
  lemma AtLeastAllMultiset(g: int, tail: seq<DbRow>, x: DbRow, rest: seq<DbRow>)
    requires AtLeastAll(g, tail) && g >= Grade(x)
    requires multiset(rest) == multiset(tail) + multiset{x}
    ensures AtLeastAll(g, rest)
  {
    forall i | 0 <= i < |rest| ensures g >= Grade(rest[i]) {
      assert rest[i] in multiset(rest);
      if rest[i] != x {
        assert rest[i] in multiset(tail);
        assert rest[i] in tail;
      }
    }
  }

  /** `group.sort((a, b) => (b.grade || 0) - (a.grade || 0))`: a stable sort by
      descending grade. */
  function SortDesc(s: seq<DbRow>): (r: seq<DbRow>)
    ensures SortedDesc(r)
    ensures multiset(r) == multiset(s)
    ensures |r| == |s|
  {
    if s == [] then []
    else
      var n := |s| - 1;
      var sorted := SortDesc(s[..n]);
      InsertDescSorted(s[n], sorted);
      InsertDescMultiset(s[n], sorted);
      assert s == s[..n] + [s[n]];
      var r := InsertDesc(s[n], sorted);
      assert |multiset(r)| == |multiset(s)|;
      r
  }

  /** The rows with grade `v`. */
  function GradeIs(v: int): DbRow -> bool {
    (r: DbRow) => Grade(r) == v
  }

  lemma {:induction false} InsertDescFilter(x: DbRow, s: seq<DbRow>, v: int)
    requires SortedDesc(s)
    ensures Filter(InsertDesc(x, s), GradeIs(v)) == Filter(s, GradeIs(v)) + (if Grade(x) == v then [x] else [])
  {
    if s == [] || Grade(s[0]) < Grade(x) {
      forall y | y in s ensures Grade(y) < Grade(x) {
        var i :| 0 <= i < |s| && s[i] == y;
      }
      InsertDescFilterFront(x, s, v);
    } else {
      var y, tail := s[0], s[1..];
      assert s == [y] + tail;
      InsertDescFilter(x, tail, v);
      var rest := InsertDesc(x, tail);
      assert InsertDesc(x, s) == [y] + rest;
      var head, extra := if Grade(y) == v then [y] else [], if Grade(x) == v then [x] else [];
      FilterCons(y, rest, GradeIs(v));
      FilterCons(y, tail, GradeIs(v));
      ConcatAssoc(head, Filter(tail, GradeIs(v)), extra);
    }
  }

  lemma InsertDescFilterFront(x: DbRow, s: seq<DbRow>, v: int)
    requires forall y :: y in s ==> Grade(y) < Grade(x)
    ensures Filter([x] + s, GradeIs(v)) == Filter(s, GradeIs(v)) + (if Grade(x) == v then [x] else [])
  {
    var p := GradeIs(v);
    FilterConcat([x], s, p);
    FilterSingleton(x, p);
    if Grade(x) == v {
      FilterNone(s, p);
    }
  }

  /** The sort is stable: the rows of any one grade keep their relative order. */
  lemma {:induction false} SortDescStable(s: seq<DbRow>, v: int)
    ensures Filter(SortDesc(s), GradeIs(v)) == Filter(s, GradeIs(v))
  {
    if s != [] {
      var n := |s| - 1;
      SortDescStable(s[..n], v);
      InsertDescFilter(s[n], SortDesc(s[..n]), v);
      assert SortDesc(s) == InsertDesc(s[n], SortDesc(s[..n]));
      assert Filter(s, GradeIs(v)) == Filter(s[..n], GradeIs(v)) + (if GradeIs(v)(s[n]) then [s[n]] else []);
    }
  }

  // ---------------------------------------------------------------------------
  // Groups and their order

  function HasKey(k: string): DbRow -> bool {
    (r: DbRow) => Key(r) == k
  }

  /** `categorizedResults[k]`: the rows with key `k`, in input order. */
  function Group(rows: seq<DbRow>, k: string): seq<DbRow> {
    Filter(rows, HasKey(k))
  }

  /** The order in which the grouping creates its keys: first-seen order. */
  function CreationOrder(rows: seq<DbRow>): seq<string> {
    Dedup(Keys(rows))
  }

  /** `Object.keys(categorizedResults)`. */
  function GroupOrder(rows: seq<DbRow>): seq<string> {
    OwnPropertyKeys(CreationOrder(rows))
  }

  /** The sorted group of key `k`, numbered from 1. */
  function RankBlock(g: seq<DbRow>): (b: seq<RankedResult>)
    ensures |b| == |g|
    ensures forall i :: 0 <= i < |g| ==> b[i] == Format(g[i], i + 1)
  {
    seq(|g|, i requires 0 <= i < |g| => Format(g[i], i + 1))
  }

  function SortedGroup(rows: seq<DbRow>, k: string): seq<DbRow> {
    SortDesc(Group(rows, k))
  }

  /** The rows of the groups of `keys`, each group sorted, in the order of `keys`. */
  function ArrangeKeys(rows: seq<DbRow>, keys: seq<string>): seq<DbRow> {
    if keys == [] then []
    else ArrangeKeys(rows, keys[..|keys| - 1]) + SortedGroup(rows, keys[|keys| - 1])
  }

  /** The ranked rows of the groups of `keys`, in the order of `keys`. */
  function RankKeys(rows: seq<DbRow>, keys: seq<string>): seq<RankedResult> {
    if keys == [] then []
    else RankKeys(rows, keys[..|keys| - 1]) + RankBlock(SortedGroup(rows, keys[|keys| - 1]))
  }

  /** The input rows in the order of the ranked list. */
  function Arrange(rows: seq<DbRow>): seq<DbRow> {
    ArrangeKeys(rows, GroupOrder(rows))
  }

  /** The result of `calculateRanksInCategories`. */
  function RankAll(rows: seq<DbRow>): seq<RankedResult> {
    RankKeys(rows, GroupOrder(rows))
  }

  // ---------------------------------------------------------------------------
  // The imperative grouping and numbering

  /** Pushing row `r` onto the entry of its key, the entry being created empty
      when the key is new. */
  function Push(m: map<string, seq<DbRow>>, r: DbRow): map<string, seq<DbRow>> {
    m[Key(r) := (if Key(r) in m then m[Key(r)] else []) + [r]]
  }

  /** The dictionary the grouping pass builds from `rows`. It holds the group of
      every key, by `GroupedIsGroups`. */
  function Grouped(rows: seq<DbRow>): map<string, seq<DbRow>> {
    if rows == [] then map[] else Push(Grouped(rows[..|rows| - 1]), rows[|rows| - 1])
  }

  /** The first pass of `calculateRanksInCategories`: each row is pushed onto the
      entry of its category key, the entry being created empty when the key is
      new. `created` records the order in which the entries were created. */
  method GroupByCategory(results: seq<DbRow>) returns (categorized: map<string, seq<DbRow>>, created: seq<string>)
    ensures categorized == Grouped(results)
    ensures created == CreationOrder(results)
  {
    categorized := map[];
    created := [];
    var i := 0;
    while i < |results|
      invariant 0 <= i <= |results|
      invariant created == CreationOrder(results[..i])
      invariant categorized == Grouped(results[..i])
    {
      var category := CategoryKey(results[i].category);
      ghost var before := categorized;
      if category !in categorized {
        categorized := categorized[category := []];
        created := created + [category];
      }
      categorized := categorized[category := categorized[category] + [results[i]]];
      assert categorized == Grouped(results[..i + 1]) && created == CreationOrder(results[..i + 1]) by {
        CreationStep(results, i);
        GroupedStep(results, i);
        GroupedHasKey(results[..i], category);
        PushInTwoSteps(before, results[i]);
      }
      i := i + 1;
    }
    assert results[..i] == results;
  }

  /** The dictionary has an entry for a key exactly when the key has been
      created. */
  lemma GroupedHasKey(rows: seq<DbRow>, k: string)
    ensures k in Grouped(rows) <==> k in CreationOrder(rows)
  {
    GroupedIsGroups(rows);
  }

  /** Creating the missing entry and then pushing onto it is `Push`. */
  lemma PushInTwoSteps(m: map<string, seq<DbRow>>, r: DbRow)
    ensures var made := if Key(r) in m then m else m[Key(r) := []];
      made[Key(r) := made[Key(r)] + [r]] == Push(m, r)
  {
  }

  lemma GroupedStep(rows: seq<DbRow>, i: nat)
    requires i < |rows|
    ensures Grouped(rows[..i + 1]) == Push(Grouped(rows[..i]), rows[i])
  {
    assert rows[..i + 1][..i] == rows[..i];
  }

  /** Every entry of the dictionary is the group of its key, and there is an entry
      for exactly the keys of the rows. */
  lemma {:induction false} GroupedIsGroups(rows: seq<DbRow>)
    ensures GroupsOf(Grouped(rows), rows)
  {
    if rows != [] {
      var n := |rows| - 1;
      GroupedIsGroups(rows[..n]);
      PushStep(Grouped(rows[..n]), rows, n);
      assert rows[..n + 1] == rows;
    } else {
      assert Keys(rows) == [];
    }
  }

  /** `calculateRanksInCategories`: the grouping pass, then the second pass over
      the keys of the dictionary in `Object.keys` order. */
  method CalculateRanksInCategories(results: seq<DbRow>) returns (ranked: seq<RankedResult>)
    ensures ranked == RankAll(results)
  {
    var categorized, created := GroupByCategory(results);
    var keys := OwnPropertyKeys(created);
    GroupedIsGroups(results);
    GroupsCoverKeys(categorized, results);
    ranked := RankGroups(results, categorized, keys);
  }

  /** The second pass of `calculateRanksInCategories`: for each key in turn, its
      group is sorted by descending grade and its rows, numbered from 1, are
      appended. */
  method RankGroups(results: seq<DbRow>, categorized: map<string, seq<DbRow>>, keys: seq<string>)
    returns (ranked: seq<RankedResult>)
    requires forall k :: k in keys ==> k in categorized && categorized[k] == Group(results, k)
    ensures ranked == RankKeys(results, keys)
  {
    ranked := [];
    var j := 0;
    while j < |keys|
      invariant 0 <= j <= |keys|
      invariant ranked == RankKeys(results, keys[..j])
    {
      assert keys[j] in keys;
      var categoryResults := RankBlock(SortDesc(categorized[keys[j]]));
      RankKeysStep(results, keys, j);
      ranked := ranked + categoryResults;
      j := j + 1;
    }
    assert keys[..j] == keys;
  }

  /** The dictionary has an entry, the group, for every key `Object.keys`
      lists. */
  lemma GroupsCoverKeys(m: map<string, seq<DbRow>>, rows: seq<DbRow>)
    requires GroupsOf(m, rows)
    ensures forall k :: k in GroupOrder(rows) ==> k in m && m[k] == Group(rows, k)
  {
    OwnPropertyKeysListsEachOnce(CreationOrder(rows));
  }

  lemma RankKeysStep(rows: seq<DbRow>, keys: seq<string>, j: nat)
    requires j < |keys|
    ensures RankKeys(rows, keys[..j + 1]) == RankKeys(rows, keys[..j]) + RankBlock(SortedGroup(rows, keys[j]))
  {
    assert keys[..j + 1][..j] == keys[..j];
  }

  /** `m` has an entry for exactly the keys of `rows`, and each entry is the
      group of its key. */
  ghost predicate GroupsOf(m: map<string, seq<DbRow>>, rows: seq<DbRow>) {
    (forall k :: k in m <==> k in Keys(rows))
    && (forall k :: k in m ==> m[k] == Group(rows, k))
  }

  lemma AbsentKeyEmptyGroup(rows: seq<DbRow>, k: string)
    requires k !in Keys(rows)
    ensures Group(rows, k) == []
  {
    forall x | x in rows ensures !HasKey(k)(x) {
      var j :| 0 <= j < |rows| && rows[j] == x;
      assert Keys(rows)[j] == Key(x);
    }
    FilterNone(rows, HasKey(k));
  }

  /** Pushing row `i` onto its key's entry (created empty when missing) keeps
      every entry the group of its key. */
  lemma PushStep(m: map<string, seq<DbRow>>, rows: seq<DbRow>, i: nat)
    requires i < |rows| && GroupsOf(m, rows[..i])
    ensures GroupsOf(Push(m, rows[i]), rows[..i + 1])
  {
    var c := Key(rows[i]);
    var m' := m[c := (if c in m then m[c] else []) + [rows[i]]];
    assert rows[..i + 1] == rows[..i] + [rows[i]];
    assert Keys(rows[..i + 1]) == Keys(rows[..i]) + [c];
    forall k | k in m' ensures m'[k] == Group(rows[..i + 1], k) {
      FilterSnoc(rows[..i], rows[i], HasKey(k));
      if k == c && c !in m {
        AbsentKeyEmptyGroup(rows[..i], k);
      }
    }
  }

  /** Row `i` creates its key when no earlier row has it. */
  lemma CreationStep(rows: seq<DbRow>, i: nat)
    requires i < |rows|
    ensures CreationOrder(rows[..i + 1]) ==
      if Key(rows[i]) in CreationOrder(rows[..i]) then CreationOrder(rows[..i]) else CreationOrder(rows[..i]) + [Key(rows[i])]
  {
    assert rows[..i + 1][..i] == rows[..i];
    assert Keys(rows[..i + 1])[..i] == Keys(rows[..i]);
  }

  // ---------------------------------------------------------------------------
  // The ranked list is the arranged input

  /** Each ranked row is built from the input row at the same position of the
      arranged input. */
  lemma {:induction false} RankKeysFormat(rows: seq<DbRow>, keys: seq<string>)
    ensures |RankKeys(rows, keys)| == |ArrangeKeys(rows, keys)|
    ensures forall i :: 0 <= i < |RankKeys(rows, keys)| ==>
      RankKeys(rows, keys)[i] == Format(ArrangeKeys(rows, keys)[i], RankKeys(rows, keys)[i].rank)
  {
    if keys != [] {
      RankKeysFormat(rows, keys[..|keys| - 1]);
    }
  }

  /** The rows whose key is one of `keys`. */
  function InKeys(keys: seq<string>): DbRow -> bool {
    (r: DbRow) => Key(r) in keys
  }

  lemma {:induction false} FilterUnion(s: seq<DbRow>, p: DbRow -> bool, q: DbRow -> bool, u: DbRow -> bool)
    requires forall x :: u(x) == (p(x) || q(x))
    requires forall x :: !(p(x) && q(x))
    ensures multiset(Filter(s, u)) == multiset(Filter(s, p)) + multiset(Filter(s, q))
  {
    if s != [] {
      FilterUnion(s[..|s| - 1], p, q, u);
    }
  }

  lemma {:induction false} ArrangeKeysMultiset(rows: seq<DbRow>, keys: seq<string>)
    requires Distinct(keys)
    ensures multiset(ArrangeKeys(rows, keys)) == multiset(Filter(rows, InKeys(keys)))
  {
    if keys == [] {
      FilterNone(rows, InKeys(keys));
    } else {
      var n := |keys| - 1;
      var front, k := keys[..n], keys[n];
      assert k !in front;
      ArrangeKeysMultiset(rows, front);
      assert forall x :: InKeys(keys)(x) == (InKeys(front)(x) || HasKey(k)(x)) by {
        assert keys == front + [k];
      }
      FilterUnion(rows, InKeys(front), HasKey(k), InKeys(keys));
    }
  }

  /** Every key of the input is among the visited keys, and each only once. */
  lemma GroupOrderCovers(rows: seq<DbRow>)
    ensures Distinct(GroupOrder(rows))
    ensures forall k :: k in GroupOrder(rows) <==> exists i :: 0 <= i < |rows| && Key(rows[i]) == k
  {
    var ks := Keys(rows);
    OwnPropertyKeysListsEachOnce(Dedup(ks));
    forall k ensures k in ks <==> exists i :: 0 <= i < |rows| && Key(rows[i]) == k {
      if k in ks {
        var i :| 0 <= i < |ks| && ks[i] == k;
      }
    }
  }

  /** The ranked list holds every input row exactly once (as a multiset, in the
      arranged order), so it is as long as the input; an empty input gives an
      empty list. */
  lemma RankAllPermutation(rows: seq<DbRow>)
    ensures multiset(Arrange(rows)) == multiset(rows)
    ensures |RankAll(rows)| == |rows|
    ensures rows == [] ==> RankAll(rows) == []
  {
    var keys := GroupOrder(rows);
    GroupOrderCovers(rows);
    ArrangeKeysMultiset(rows, keys);
    forall r | r in rows ensures InKeys(keys)(r) {
      var i :| 0 <= i < |rows| && rows[i] == r;
    }
    FilterAll(rows, InKeys(keys));
    RankKeysFormat(rows, keys);
    assert |multiset(Arrange(rows))| == |multiset(rows)|;
  }

  // ---------------------------------------------------------------------------
  // One block

  /** The numbered block of key `k`: every row carries category `k`, the ranks are
      1, 2, ..., the grades do not increase, and it is as long as the group. */
  lemma BlockFacts(rows: seq<DbRow>, k: string)
    ensures |RankBlock(SortedGroup(rows, k))| == |Group(rows, k)|
    ensures forall i :: 0 <= i < |RankBlock(SortedGroup(rows, k))| ==>
      RankBlock(SortedGroup(rows, k))[i].category == k && RankBlock(SortedGroup(rows, k))[i].rank == i + 1
    ensures forall i, j :: 0 <= i < j < |RankBlock(SortedGroup(rows, k))| ==>
      RankBlock(SortedGroup(rows, k))[i].grade >= RankBlock(SortedGroup(rows, k))[j].grade
  {
    var g := Group(rows, k);
    var s := SortedGroup(rows, k);
    forall i | 0 <= i < |s| ensures Key(s[i]) == k {
      assert s[i] in multiset(s);
      assert s[i] in g;
    }
  }

  // ---------------------------------------------------------------------------
  // Properties of the ranked list, by induction over the visited keys

  lemma {:induction false} CategoriesIn(rows: seq<DbRow>, keys: seq<string>)
    ensures forall i :: 0 <= i < |RankKeys(rows, keys)| ==> RankKeys(rows, keys)[i].category in keys
  {
    if keys != [] {
      var n := |keys| - 1;
      CategoriesIn(rows, keys[..n]);
      BlockFacts(rows, keys[n]);
      assert keys == keys[..n] + [keys[n]];
    }
  }

  /** Splitting the ranked list before the last visited key's block. */
  lemma SplitLast(rows: seq<DbRow>, keys: seq<string>)
    requires Distinct(keys) && keys != []
    ensures var n := |keys| - 1;
      var front := RankKeys(rows, keys[..n]);
      RankKeys(rows, keys) == front + RankBlock(SortedGroup(rows, keys[n]))
      && (forall i :: 0 <= i < |front| ==> front[i].category != keys[n])
  {
    var n := |keys| - 1;
    CategoriesIn(rows, keys[..n]);
    assert keys[n] !in keys[..n];
  }

  /** The rows of one category are contiguous. */
  lemma {:induction false} Contiguous(rows: seq<DbRow>, keys: seq<string>)
    requires Distinct(keys)
    ensures forall i, j, l :: (0 <= i < j < l < |RankKeys(rows, keys)|
      && RankKeys(rows, keys)[i].category == RankKeys(rows, keys)[l].category) ==>
      RankKeys(rows, keys)[j].category == RankKeys(rows, keys)[i].category
  {
    if keys != [] {
      var n := |keys| - 1;
      var front := RankKeys(rows, keys[..n]);
      var out := RankKeys(rows, keys);
      SplitLast(rows, keys);
      BlockFacts(rows, keys[n]);
      Contiguous(rows, keys[..n]);
      forall i, j, l | 0 <= i < j < l < |out| && out[i].category == out[l].category
        ensures out[j].category == out[i].category
      {
        if l < |front| {
          assert out[i] == front[i] && out[j] == front[j] && out[l] == front[l];
        } else if i >= |front| {
          assert out[j].category == keys[n];
        }
      }
    }
  }

  /** The first row of each category's run has rank 1. */
  predicate RunsStartAtOne(out: seq<RankedResult>) {
    forall i {:trigger out[i]} :: 0 <= i < |out| && (i == 0 || out[i - 1].category != out[i].category) ==> out[i].rank == 1
  }

  /** Along a category's run, each rank is one more than the one before. */
  predicate RunsCountUp(out: seq<RankedResult>) {
    forall i :: 0 < i < |out| && out[i - 1].category == out[i].category ==> out[i].rank == out[i - 1].rank + 1
  }

  /** The last row of each category's run has the size of its group in `rows` as
      its rank. */
  predicate RunsEndAtSize(out: seq<RankedResult>, rows: seq<DbRow>) {
    forall i {:trigger out[i]} :: 0 <= i < |out| && (i == |out| - 1 || out[i + 1].category != out[i].category) ==>
      out[i].rank == |Group(rows, out[i].category)|
  }

  /** `b` is a block of category `k` numbered 1, 2, .... */
  predicate IsBlock(b: seq<RankedResult>, k: string) {
    forall i :: 0 <= i < |b| ==> b[i].category == k && b[i].rank == i + 1
  }

  /** No row of `front` has category `k`. */
  predicate Avoids(front: seq<RankedResult>, k: string) {
    forall i :: 0 <= i < |front| ==> front[i].category != k
  }

  lemma AppendBlockStarts(front: seq<RankedResult>, b: seq<RankedResult>, k: string)
    requires RunsStartAtOne(front) && IsBlock(b, k) && Avoids(front, k)
    ensures RunsStartAtOne(front + b)
  {
    var out := front + b;
    forall i | 0 <= i < |out| && (i == 0 || out[i - 1].category != out[i].category)
      ensures out[i].rank == 1
    {
      if i < |front| {
        assert out[i] == front[i] && (i > 0 ==> out[i - 1] == front[i - 1]);
      } else if i == |front| {
        assert out[i] == b[0];
      }
    }
  }

  lemma AppendBlockCounts(front: seq<RankedResult>, b: seq<RankedResult>, k: string)
    requires RunsCountUp(front) && IsBlock(b, k) && Avoids(front, k)
    ensures RunsCountUp(front + b)
  {
    var out := front + b;
    forall i | 0 < i < |out| && out[i - 1].category == out[i].category
      ensures out[i].rank == out[i - 1].rank + 1
    {
      if i < |front| {
        assert out[i] == front[i] && out[i - 1] == front[i - 1];
      } else if i > |front| {
        assert out[i - 1] == b[i - 1 - |front|] && out[i] == b[i - |front|];
      }
    }
  }

  lemma AppendBlockEnds(front: seq<RankedResult>, b: seq<RankedResult>, k: string, rows: seq<DbRow>)
    requires RunsEndAtSize(front, rows) && IsBlock(b, k) && Avoids(front, k)
    requires |b| == |Group(rows, k)|
    ensures RunsEndAtSize(front + b, rows)
  {
    var out := front + b;
    forall i | 0 <= i < |out| && (i == |out| - 1 || out[i + 1].category != out[i].category)
      ensures out[i].rank == |Group(rows, out[i].category)|
    {
      if i < |front| - 1 {
        assert out[i] == front[i] && out[i + 1] == front[i + 1];
      } else if i == |front| - 1 {
        assert out[i] == front[i];
        if b != [] {
          assert out[i + 1] == b[0];
        }
      } else {
        assert out[i] == b[i - |front|];
        assert out[i].category == k;
      }
    }
  }

  lemma {:induction false} RanksNumbered(rows: seq<DbRow>, keys: seq<string>)
    requires Distinct(keys)
    ensures RunsStartAtOne(RankKeys(rows, keys))
    ensures RunsCountUp(RankKeys(rows, keys))
    ensures RunsEndAtSize(RankKeys(rows, keys), rows)
  {
    if keys != [] {
      var n := |keys| - 1;
      var front := RankKeys(rows, keys[..n]);
      var b := RankBlock(SortedGroup(rows, keys[n]));
      SplitLast(rows, keys);
      BlockFacts(rows, keys[n]);
      RanksNumbered(rows, keys[..n]);
      assert IsBlock(b, keys[n]);
      assert Avoids(front, keys[n]);
      AppendBlockStarts(front, b, keys[n]);
      AppendBlockCounts(front, b, keys[n]);
      AppendBlockEnds(front, b, keys[n], rows);
    }
  }

  /** Within a category, the grades do not increase along the list. */
  lemma {:induction false} GradesDescending(rows: seq<DbRow>, keys: seq<string>)
    requires Distinct(keys)
    ensures forall i, j :: (0 <= i < j < |RankKeys(rows, keys)|
      && RankKeys(rows, keys)[i].category == RankKeys(rows, keys)[j].category) ==>
      RankKeys(rows, keys)[i].grade >= RankKeys(rows, keys)[j].grade
  {
    if keys != [] {
      var n := |keys| - 1;
      var front := RankKeys(rows, keys[..n]);
      var block := RankBlock(SortedGroup(rows, keys[n]));
      var out := RankKeys(rows, keys);
      SplitLast(rows, keys);
      BlockFacts(rows, keys[n]);
      GradesDescending(rows, keys[..n]);
      forall i, j | 0 <= i < j < |out| && out[i].category == out[j].category
        ensures out[i].grade >= out[j].grade
      {
        if j < |front| {
          assert out[i] == front[i] && out[j] == front[j];
        } else if i >= |front| {
          assert out[i] == block[i - |front|] && out[j] == block[j - |front|];
        }
      }
    }
  }

  /** Groups appear in the order of the visited keys. */
  lemma {:induction false} BlocksInKeyOrder(rows: seq<DbRow>, keys: seq<string>)
    requires Distinct(keys)
    ensures forall i, j :: (0 <= i < j < |RankKeys(rows, keys)|
      && RankKeys(rows, keys)[i].category != RankKeys(rows, keys)[j].category) ==>
      RankKeys(rows, keys)[i].category in keys && RankKeys(rows, keys)[j].category in keys
      && FirstIndex(keys, RankKeys(rows, keys)[i].category) < FirstIndex(keys, RankKeys(rows, keys)[j].category)
  {
    if keys != [] {
      var n := |keys| - 1;
      var front := RankKeys(rows, keys[..n]);
      var block := RankBlock(SortedGroup(rows, keys[n]));
      var out := RankKeys(rows, keys);
      SplitLast(rows, keys);
      BlockFacts(rows, keys[n]);
      CategoriesIn(rows, keys);
      CategoriesIn(rows, keys[..n]);
      BlocksInKeyOrder(rows, keys[..n]);
      forall i, j | 0 <= i < j < |out| && out[i].category != out[j].category
        ensures FirstIndex(keys, out[i].category) < FirstIndex(keys, out[j].category)
      {
        if j < |front| {
          assert out[i] == front[i] && out[j] == front[j];
          FirstIndexPrefix(keys, n, out[i].category);
          FirstIndexPrefix(keys, n, out[j].category);
        } else {
          assert out[j].category == keys[n];
          assert i < |front|;
          assert out[i] == front[i];
          FirstIndexPrefix(keys, n, out[i].category);
          assert keys[n] !in keys[..n];
          assert FirstIndex(keys, keys[n]) == n;
        }
      }
    }
  }

  // ---------------------------------------------------------------------------
  // The properties of the whole ranked list

  /** Each category's rows are contiguous in the ranked list. */
  lemma RankAllContiguous(rows: seq<DbRow>)
    ensures forall i, j, l :: (0 <= i < j < l < |RankAll(rows)|
      && RankAll(rows)[i].category == RankAll(rows)[l].category) ==>
      RankAll(rows)[j].category == RankAll(rows)[i].category
  {
    GroupOrderCovers(rows);
    Contiguous(rows, GroupOrder(rows));
  }

  /** Each category's run is numbered 1, 2, ..., N in list order, with N the
      number of input rows in the category. */
  lemma RankAllNumbering(rows: seq<DbRow>)
    ensures RunsStartAtOne(RankAll(rows))
    ensures RunsCountUp(RankAll(rows))
    ensures RunsEndAtSize(RankAll(rows), rows)
  {
    GroupOrderCovers(rows);
    RanksNumbered(rows, GroupOrder(rows));
  }

  /** Within a category, the grades do not increase along the ranked list. */
  lemma RankAllGradesDescending(rows: seq<DbRow>)
    ensures forall i, j :: (0 <= i < j < |RankAll(rows)|
      && RankAll(rows)[i].category == RankAll(rows)[j].category) ==>
      RankAll(rows)[i].grade >= RankAll(rows)[j].grade
  {
    GroupOrderCovers(rows);
    GradesDescending(rows, GroupOrder(rows));
  }

  /** Every ranked row is its input row with `id` and `no` from `no`, the category
      key and `grade || 0`. */
  lemma RankAllFields(rows: seq<DbRow>)
    ensures |RankAll(rows)| == |Arrange(rows)|
    ensures forall i :: 0 <= i < |RankAll(rows)| ==>
      var out, src := RankAll(rows)[i], Arrange(rows)[i];
      out.id == src.no && out.no == src.no && out.name == src.name
      && out.category == CategoryKey(src.category) && out.grade == GradeOrZero(src.grade)
  {
    RankKeysFormat(rows, GroupOrder(rows));
  }

  lemma {:induction false} FilterOrder(s: seq<string>, p: string -> bool, x: string, y: string)
    requires x in s && y in s && p(x) && p(y) && x != y
    ensures FirstIndex(s, x) < FirstIndex(s, y) <==> FirstIndex(Filter(s, p), x) < FirstIndex(Filter(s, p), y)
  {
    var n := |s| - 1;
    var front := s[..n];
    var f := Filter(front, p);
    assert Filter(s, p) == f + (if p(s[n]) then [s[n]] else []);
    if x in front && y in front {
      FilterOrder(front, p, x, y);
      FirstIndexPrefix(s, n, x);
      FirstIndexPrefix(s, n, y);
      FirstIndexPrefix(Filter(s, p), |f|, x);
      FirstIndexPrefix(Filter(s, p), |f|, y);
      assert Filter(s, p)[..|f|] == f;
    } else if x in front {
      FirstIndexPrefix(s, n, x);
      FirstIndexPrefix(Filter(s, p), |f|, x);
      assert Filter(s, p)[..|f|] == f;
    } else {
      FirstIndexPrefix(s, n, y);
      FirstIndexPrefix(Filter(s, p), |f|, y);
      assert Filter(s, p)[..|f|] == f;
    }
  }

  /** Groups are emitted in `Object.keys` order: when two rows of different
      categories appear in the list, an array-index category ahead of them is an
      array index with a smaller value, and two other categories appear in the
      order their first rows have in the input. */
  lemma RankAllGroupOrder(rows: seq<DbRow>)
    ensures forall i, j :: (0 <= i < j < |RankAll(rows)|
      && RankAll(rows)[i].category != RankAll(rows)[j].category) ==>
      (IsArrayIndex(RankAll(rows)[j].category) ==>
         IsArrayIndex(RankAll(rows)[i].category)
         && DigitsValue(RankAll(rows)[i].category) < DigitsValue(RankAll(rows)[j].category))
      && (IsNamedKey(RankAll(rows)[i].category) && IsNamedKey(RankAll(rows)[j].category) ==>
         RankAll(rows)[i].category in Keys(rows) && RankAll(rows)[j].category in Keys(rows)
         && FirstIndex(Keys(rows), RankAll(rows)[i].category) < FirstIndex(Keys(rows), RankAll(rows)[j].category))
  {
    var out := RankAll(rows);
    var created := CreationOrder(rows);
    var keys := GroupOrder(rows);
    GroupOrderCovers(rows);
    BlocksInKeyOrder(rows, keys);
    OwnPropertyKeysListsEachOnce(created);
    OwnPropertyKeysIndicesFirst(created);
    OwnPropertyKeysNamedOrder(created);
    DedupFirstOccurrence(Keys(rows));
    forall i, j | 0 <= i < j < |out| && out[i].category != out[j].category
      ensures IsArrayIndex(out[j].category) ==>
        IsArrayIndex(out[i].category) && DigitsValue(out[i].category) < DigitsValue(out[j].category)
      ensures IsNamedKey(out[i].category) && IsNamedKey(out[j].category) ==>
        out[i].category in Keys(rows) && out[j].category in Keys(rows)
        && FirstIndex(Keys(rows), out[i].category) < FirstIndex(Keys(rows), out[j].category)
    {
      var a, b := out[i].category, out[j].category;
      var ia, ib := FirstIndex(keys, a), FirstIndex(keys, b);
      assert ia < ib;
      if IsNamedKey(a) && IsNamedKey(b) {
        FilterOrder(keys, IsNamedKey, a, b);
        FilterOrder(created, IsNamedKey, a, b);
        var ca, cb := FirstIndex(created, a), FirstIndex(created, b);
        assert created[ca] == a && created[cb] == b;
      }
    }
  }

  /** The rows with key `k` and grade `v`. */
  function KeyGradeIs(k: string, v: int): DbRow -> bool {
    (r: DbRow) => Key(r) == k && Grade(r) == v
  }

  lemma {:induction false} FilterFilter(s: seq<DbRow>, p: DbRow -> bool, q: DbRow -> bool, u: DbRow -> bool)
    requires forall x :: u(x) == (p(x) && q(x))
    ensures Filter(Filter(s, p), q) == Filter(s, u)
  {
    if s != [] {
      var n := |s| - 1;
      FilterFilter(s[..n], p, q, u);
      FilterConcat(Filter(s[..n], p), if p(s[n]) then [s[n]] else [], q);
    }
  }

  lemma {:induction false} FilterCongruent(s: seq<DbRow>, p: DbRow -> bool, q: DbRow -> bool)
    requires forall x :: x in s ==> p(x) == q(x)
    ensures Filter(s, p) == Filter(s, q)
  {
    if s != [] {
      var n := |s| - 1;
      assert forall x :: x in s[..n] ==> x in s;
      assert s[n] in s;
      FilterCongruent(s[..n], p, q);
      assert Filter(s, p) == Filter(s[..n], p) + (if p(s[n]) then [s[n]] else []);
      assert Filter(s, q) == Filter(s[..n], q) + (if q(s[n]) then [s[n]] else []);
    }
  }

  /** The rows of key `k` and grade `v` in the arranged list of `keys`: the sorted
      group's rows of grade `v`, when `k` is visited. */
  lemma {:induction false} ArrangeKeysFilter(rows: seq<DbRow>, keys: seq<string>, k: string, v: int)
    requires Distinct(keys)
    ensures Filter(ArrangeKeys(rows, keys), KeyGradeIs(k, v)) ==
      if k in keys then Filter(SortedGroup(rows, k), KeyGradeIs(k, v)) else []
  {
    if keys != [] {
      var n := |keys| - 1;
      var front := keys[..n];
      var p := KeyGradeIs(k, v);
      ArrangeKeysFilter(rows, front, k, v);
      FilterConcat(ArrangeKeys(rows, front), SortedGroup(rows, keys[n]), p);
      assert keys == front + [keys[n]];
      if keys[n] != k {
        OtherGroupFilter(rows, keys[n], k, v);
        assert k in keys <==> k in front;
      } else {
        assert keys[n] !in front;
      }
    }
  }

  /** The sorted group of key `j` holds no row of another key `k`. */
  lemma OtherGroupFilter(rows: seq<DbRow>, j: string, k: string, v: int)
    requires j != k
    ensures Filter(SortedGroup(rows, j), KeyGradeIs(k, v)) == []
  {
    var s := SortedGroup(rows, j);
    forall x | x in s ensures !KeyGradeIs(k, v)(x) {
      assert x in multiset(s);
      assert x in Group(rows, j);
    }
    FilterNone(s, KeyGradeIs(k, v));
  }

  /** The ranking is stable: the rows of one category with equal grades appear in
      their input order. */
  lemma RankAllStable(rows: seq<DbRow>, k: string, v: int)
    ensures Filter(Arrange(rows), KeyGradeIs(k, v)) == Filter(rows, KeyGradeIs(k, v))
  {
    var keys := GroupOrder(rows);
    var p := KeyGradeIs(k, v);
    var g := Group(rows, k);
    GroupOrderCovers(rows);
    ArrangeKeysFilter(rows, keys, k, v);
    FilterFilter(rows, HasKey(k), GradeIs(v), p);
    if k in keys {
      var s := SortedGroup(rows, k);
      forall x | x in s ensures p(x) == GradeIs(v)(x) {
        assert x in multiset(s);
        assert x in g;
      }
      FilterCongruent(s, p, GradeIs(v));
      SortDescStable(g, v);
    } else {
      forall x | x in rows ensures !p(x) {
        var i :| 0 <= i < |rows| && rows[i] == x;
      }
      FilterNone(rows, p);
    }
  }
}
