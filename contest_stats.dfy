/** The contest statistics computed over the students' records (`calculateStats`)
    and the two colour classifiers the result cards use: the category badge
    colour (`getCategoryColor`) and the grade band colour (`getGradeColor`). */
module ContestStats {
  import opened Seqs

  /** One student as the statistics see them. */
  datatype Student = Student(name: string, category: string, grade: int)

  /** The statistics record. `categoriesCount` is the dictionary from a category
      to the number of students in it. */
  datatype Stats = Stats(
    totalStudents: nat,
    categories: seq<string>,
    averageGrade: int,
    topGrade: int,
    categoriesCount: map<string, nat>)

  /** The statistics of a missing or empty student list. */
  const EmptyStats := Stats(0, [], 0, 0, map[])

  function CategoryOf(s: Student): string { s.category }

  function GradeOf(s: Student): int { s.grade }

  function IsPositive(g: int): bool { g > 0 }

  // ---------------------------------------------------------------------------
  // Arithmetic of the grades
  // ---------------------------------------------------------------------------

  /** `grades.reduce((sum, grade) => sum + grade, 0)`: the left-to-right sum. */
  function Sum(s: seq<int>): int {
    if s == [] then 0 else Sum(s[..|s| - 1]) + s[|s| - 1]
  }

  /** `Math.max(...grades)` on a non-empty list. */
  function MaxOf(s: seq<int>): int
    requires s != []
  {
    if |s| == 1 then s[0]
    else
      var m := MaxOf(s[..|s| - 1]);
      if s[|s| - 1] > m then s[|s| - 1] else m
  }

  /** The least element of a non-empty list (used to bound the average). */
  function MinOf(s: seq<int>): int
    requires s != []
  {
    if |s| == 1 then s[0]
    else
      var m := MinOf(s[..|s| - 1]);
      if s[|s| - 1] < m then s[|s| - 1] else m
  }

  /** `Math.round(sum / n)` for a positive count `n`: the floor of `sum / n + 1/2`.
      With a positive divisor Dafny's `/` is the floor, so this is exact. */
  function RoundHalfUp(sum: int, n: int): int
    requires n > 0
  {
    (2 * sum + n) / (2 * n)
  }

  lemma {:induction false} MaxOfIsMaximum(s: seq<int>)
    requires s != []
    ensures MaxOf(s) in s
    ensures forall x :: x in s ==> x <= MaxOf(s)
  {
    if |s| > 1 {
      var p := s[..|s| - 1];
      MaxOfIsMaximum(p);
      assert s == p + [s[|s| - 1]];
    }
  }

  lemma {:induction false} MinOfIsMinimum(s: seq<int>)
    requires s != []
    ensures MinOf(s) in s
    ensures forall x :: x in s ==> MinOf(s) <= x
  {
    if |s| > 1 {
      var p := s[..|s| - 1];
      MinOfIsMinimum(p);
      assert s == p + [s[|s| - 1]];
    }
  }

  /** A sum of `|s|` values between `lo` and `hi` lies between `|s| * lo` and
      `|s| * hi`. */
  lemma {:induction false} SumBounds(s: seq<int>, lo: int, hi: int)
    requires forall x :: x in s ==> lo <= x <= hi
    ensures |s| * lo <= Sum(s) <= |s| * hi
  {
    if s != [] {
      var n := |s| - 1;
      var p := s[..n];
      assert s[n] in s;
      forall x | x in p ensures lo <= x <= hi {
        assert x in s;
      }
      SumBounds(p, lo, hi);
      assert |s| * lo == n * lo + lo;
      assert |s| * hi == n * hi + hi;
    }
  }

  lemma RoundHalfUpBounds(sum: int, n: int)
    requires n > 0
    ensures 2 * n * RoundHalfUp(sum, n) - n <= 2 * sum < 2 * n * RoundHalfUp(sum, n) + n
  {
    var q, m := (2 * sum + n) / (2 * n), (2 * sum + n) % (2 * n);
    assert 2 * sum + n == 2 * n * q + m && 0 <= m < 2 * n;
  }

  /** The rounded value is the integer nearest to `sum / n`, halves going up:
      `r - 1/2 <= sum / n < r + 1/2`, and no other integer is that close. */
  lemma RoundHalfUpNearest(sum: int, n: int)
    requires n > 0
    ensures 2 * n * RoundHalfUp(sum, n) - n <= 2 * sum < 2 * n * RoundHalfUp(sum, n) + n
    ensures forall r :: 2 * n * r - n <= 2 * sum < 2 * n * r + n ==> r == RoundHalfUp(sum, n)
  {
    RoundHalfUpBounds(sum, n);
    var q := RoundHalfUp(sum, n);
    forall r | 2 * n * r - n <= 2 * sum < 2 * n * r + n ensures r == q {
      var nr, nq := 2 * n * r, 2 * n * q;
      assert 2 * n * (r - q) < 2 * n && 2 * n * (q - r) < 2 * n by {
        assert 2 * n * (r - q) == nr - nq;
        assert 2 * n * (q - r) == nq - nr;
      }
      BelowOne(2 * n, r - q);
      BelowOne(2 * n, q - r);
    }
  }

  lemma MulMonotone(k: int, a: int, b: int)
    requires k > 0 && a <= b
    ensures k * a <= k * b
  {
    assert k * b - k * a == k * (b - a);
  }

  /** Rounding the mean of values between `lo` and `hi` stays between them. */
  lemma RoundedMeanBetween(sum: int, n: int, lo: int, hi: int)
    requires n > 0
    requires n * lo <= sum <= n * hi
    ensures lo <= RoundHalfUp(sum, n) <= hi
  {
    var r := RoundHalfUp(sum, n);
    RoundHalfUpBounds(sum, n);
    var nr := 2 * n * r;
    assert 2 * n * (r - lo) + n > 0 by {
      assert 2 * n * (r - lo) == nr - 2 * (n * lo);
    }
    NonNegativeWhenAboveHalf(n, r - lo);
    assert 2 * n * (r - hi) <= n by {
      assert 2 * n * (r - hi) == nr - 2 * (n * hi);
    }
    NonPositiveWhenAtMostHalf(n, r - hi);
  }

  lemma BelowOne(k: int, d: int)
    requires k > 0 && k * d < k
    ensures d <= 0
  {
    if d > 0 {
      MulMonotone(k, 1, d);
    }
  }

  lemma NonNegativeWhenAboveHalf(k: int, d: int)
    requires k > 0 && 2 * k * d + k > 0
    ensures d >= 0
  {
    if d < 0 {
      MulMonotone(2 * k, d, -1);
    }
  }

  lemma NonPositiveWhenAtMostHalf(k: int, d: int)
    requires k > 0 && 2 * k * d <= k
    ensures d <= 0
  {
    if d > 0 {
      MulMonotone(2 * k, 1, d);
    }
  }

  // ---------------------------------------------------------------------------
  // The per-category counts
  // ---------------------------------------------------------------------------

  /** One step of the counting loop: `counts[c] = (counts[c] || 0) + 1`. */
  function Bump(counts: map<string, nat>, c: string): map<string, nat> {
    counts[c := (if c in counts then counts[c] else 0) + 1]
  }

  /** The dictionary the loop has built after visiting the students of `s`. */
  function Tally(s: seq<Student>): map<string, nat> {
    if s == [] then map[] else Bump(Tally(s[..|s| - 1]), s[|s| - 1].category)
  }

  /** The number of students of `s` in category `c`. */
  function Count(s: seq<Student>, c: string): nat {
    if s == [] then 0
    else Count(s[..|s| - 1], c) + (if s[|s| - 1].category == c then 1 else 0)
  }

  /** The fill loop of `calculateStats`. */
  method CountCategories(students: seq<Student>) returns (counts: map<string, nat>)
    ensures counts == Tally(students)
  {
    counts := map[];
    var i := 0;
    while i < |students|
      invariant 0 <= i <= |students|
      invariant counts == Tally(students[..i])
    {
      var category := students[i].category;
      counts := counts[category := (if category in counts then counts[category] else 0) + 1];
      assert students[..i + 1][..i] == students[..i];
      i := i + 1;
    }
    assert students[..i] == students;
  }

  /** The dictionary holds exactly the categories that occur, each with its number
      of students. */
  lemma {:induction false} TallyCounts(s: seq<Student>)
    ensures forall c :: c in Tally(s) <==> c in Map(s, CategoryOf)
    ensures forall c :: c in Tally(s) <==> Count(s, c) > 0
    ensures forall c :: c in Tally(s) ==> Tally(s)[c] == Count(s, c)
  {
    if s != [] {
      TallyCounts(s[..|s| - 1]);
    }
  }

  /** The sum of `counts[k]` over the keys `keys`. */
  function SumCounts(counts: map<string, nat>, keys: seq<string>): nat
    requires forall k :: k in keys ==> k in counts
  {
    if keys == [] then 0
    else SumCounts(counts, keys[..|keys| - 1]) + counts[keys[|keys| - 1]]
  }

  lemma {:induction false} SumCountsOutside(counts: map<string, nat>, keys: seq<string>, x: string, v: nat)
    requires forall k :: k in keys ==> k in counts
    requires x !in keys
    ensures SumCounts(counts[x := v], keys) == SumCounts(counts, keys)
  {
    if keys != [] {
      SumCountsOutside(counts, keys[..|keys| - 1], x, v);
    }
  }

  lemma {:induction false} SumCountsBump(counts: map<string, nat>, keys: seq<string>, x: string)
    requires forall k :: k in keys ==> k in counts
    requires Distinct(keys) && x in keys
    ensures SumCounts(Bump(counts, x), keys) == SumCounts(counts, keys) + 1
  {
    var n := |keys| - 1;
    var front := keys[..n];
    assert keys == front + [keys[n]];
    if keys[n] == x {
      assert x !in front;
      SumCountsOutside(counts, front, x, counts[x] + 1);
    } else {
      SumCountsBump(counts, front, x);
    }
  }

  /** Summed over the category list, the counts add up to the number of students. */
  lemma {:induction false} CountsSumToTotal(s: seq<Student>)
    ensures forall k :: k in Dedup(Map(s, CategoryOf)) ==> k in Tally(s)
    ensures SumCounts(Tally(s), Dedup(Map(s, CategoryOf))) == |s|
  {
    TallyCounts(s);
    if s != [] {
      var n := |s| - 1;
      var p, x := s[..n], s[n].category;
      var cs := Map(s, CategoryOf);
      assert cs == Map(p, CategoryOf) + [x];
      assert cs[..|cs| - 1] == Map(p, CategoryOf);
      var d := Dedup(Map(p, CategoryOf));
      CountsSumToTotal(p);
      TallyCounts(p);
      if x in d {
        SumCountsBump(Tally(p), d, x);
      } else {
        assert x !in Tally(p);
        SumCountsOutside(Tally(p), d, x, 1);
      }
    }
  }

  // ---------------------------------------------------------------------------
  // calculateStats
  // ---------------------------------------------------------------------------

  /** The grades that enter the average and the maximum: the positive ones. */
  function PositiveGrades(s: seq<Student>): seq<int> {
    Filter(Map(s, GradeOf), IsPositive)
  }

  /** The statistics `calculateStats` returns; `None` is a missing list. */
  function StatsOf(students: Option<seq<Student>>): Stats {
    if students.None? || students.value == [] then EmptyStats
    else
      var s := students.value;
      var grades := PositiveGrades(s);
      Stats(
        |s|,
        Dedup(Map(s, CategoryOf)),
        if grades != [] then RoundHalfUp(Sum(grades), |grades|) else 0,
        if grades != [] then MaxOf(grades) else 0,
        Tally(s))
  }

  method CalculateStats(students: Option<seq<Student>>) returns (stats: Stats)
    ensures stats == StatsOf(students)
  {
    if students.None? || students.value == [] {
      return EmptyStats;
    }
    var s := students.value;
    var totalStudents := |s|;
    var categories := Dedup(Map(s, CategoryOf));
    var grades := PositiveGrades(s);
    var averageGrade := if |grades| > 0 then RoundHalfUp(Sum(grades), |grades|) else 0;
    var topGrade := if |grades| > 0 then MaxOf(grades) else 0;
    var categoriesCount := CountCategories(s);
    stats := Stats(totalStudents, categories, averageGrade, topGrade, categoriesCount);
  }

  /** A missing or empty list gives all-zero statistics; otherwise the total is the
      number of students, the dictionary's keys are exactly the categories listed
      and each holds its number of students, and the counts add up to the total. */
  lemma StatsCounts(students: Option<seq<Student>>)
    ensures students.None? || students.value == [] ==> StatsOf(students) == EmptyStats
    ensures students.Some? ==>
      var st := StatsOf(students);
      && st.totalStudents == |students.value|
      && (forall c :: c in st.categoriesCount <==> c in st.categories)
      && (forall c :: c in st.categoriesCount ==> st.categoriesCount[c] == Count(students.value, c))
      && SumCounts(st.categoriesCount, st.categories) == st.totalStudents
  {
    if students.Some? && students.value != [] {
      TallyCounts(students.value);
      CountsSumToTotal(students.value);
    }
  }

  /** The category list holds each student's category once, by first appearance. */
  lemma StatsCategories(s: seq<Student>)
    requires s != []
    ensures Distinct(StatsOf(Some(s)).categories)
    ensures forall c :: c in StatsOf(Some(s)).categories <==>
      exists i :: 0 <= i < |s| && s[i].category == c
    ensures forall i, j :: 0 <= i < j < |StatsOf(Some(s)).categories| ==>
      FirstIndex(Map(s, CategoryOf), StatsOf(Some(s)).categories[i]) <
      FirstIndex(Map(s, CategoryOf), StatsOf(Some(s)).categories[j])
  {
    var cs := Map(s, CategoryOf);
    DedupFirstOccurrence(cs);
    forall c ensures c in cs <==> exists i :: 0 <= i < |s| && s[i].category == c {
      if c in cs {
        var i :| 0 <= i < |cs| && cs[i] == c;
        MapAt(s, CategoryOf, i);
      }
      if exists i :: 0 <= i < |s| && s[i].category == c {
        var i :| 0 <= i < |s| && s[i].category == c;
        MapAt(s, CategoryOf, i);
      }
    }
  }

  /** The positive grades are exactly the grades above zero. */
  lemma PositiveGradesAre(s: seq<Student>)
    ensures forall g :: g in PositiveGrades(s) <==>
      g > 0 && exists i :: 0 <= i < |s| && s[i].grade == g
  {
    var gs := Map(s, GradeOf);
    forall g ensures g in gs <==> exists i :: 0 <= i < |s| && s[i].grade == g {
      if g in gs {
        var i :| 0 <= i < |gs| && gs[i] == g;
        MapAt(s, GradeOf, i);
      }
      if exists i :: 0 <= i < |s| && s[i].grade == g {
        var i :| 0 <= i < |s| && s[i].grade == g;
        MapAt(s, GradeOf, i);
      }
    }
  }

  /** Without positive grades the average and the top grade are 0. With them, the
      top grade is the largest of them and is one of them, the average is their
      mean rounded half up, and it lies between the lowest and the top grade. */
  lemma StatsGrades(s: seq<Student>)
    requires s != []
    ensures PositiveGrades(s) == [] ==>
      StatsOf(Some(s)).averageGrade == 0 && StatsOf(Some(s)).topGrade == 0
    ensures PositiveGrades(s) != [] ==>
      var g, st := PositiveGrades(s), StatsOf(Some(s));
      && st.topGrade in g
      && (forall x :: x in g ==> x <= st.topGrade)
      && 2 * |g| * st.averageGrade - |g| <= 2 * Sum(g) < 2 * |g| * st.averageGrade + |g|
      && MinOf(g) <= st.averageGrade <= st.topGrade
  {
    var g := PositiveGrades(s);
    if g != [] {
      MaxOfIsMaximum(g);
      MinOfIsMinimum(g);
      RoundHalfUpNearest(Sum(g), |g|);
      SumBounds(g, MinOf(g), MaxOf(g));
      RoundedMeanBetween(Sum(g), |g|, MinOf(g), MaxOf(g));
    }
  }

  // ---------------------------------------------------------------------------
  // getCategoryColor
  // ---------------------------------------------------------------------------

  /** The light and dark class lists of a badge. */
  datatype ColorSet = ColorSet(light: string, dark: string)

  /** The badge colours of the eight contest categories. */
  const CategoryColors: map<string, ColorSet> := map[
    "3" := ColorSet("bg-green-100 text-green-800 border-green-200",
                    "bg-green-900/50 text-green-200 border-green-600/50"),
    "5" := ColorSet("bg-blue-100 text-blue-800 border-blue-200",
                    "bg-blue-900/50 text-blue-200 border-blue-600/50"),
    "8" := ColorSet("bg-purple-100 text-purple-800 border-purple-200",
                    "bg-purple-900/50 text-purple-200 border-purple-600/50"),
    "10" := ColorSet("bg-orange-100 text-orange-800 border-orange-200",
                     "bg-orange-900/50 text-orange-200 border-orange-600/50"),
    "15" := ColorSet("bg-teal-100 text-teal-800 border-teal-200",
                     "bg-teal-900/50 text-teal-200 border-teal-600/50"),
    "20" := ColorSet("bg-indigo-100 text-indigo-800 border-indigo-200",
                     "bg-indigo-900/50 text-indigo-200 border-indigo-600/50"),
    "25" := ColorSet("bg-rose-100 text-rose-800 border-rose-200",
                     "bg-rose-900/50 text-rose-200 border-rose-600/50"),
    "30" := ColorSet("bg-amber-100 text-amber-800 border-amber-200",
                     "bg-amber-900/50 text-amber-200 border-amber-600/50")
  ]

  /** The badge colour of any other category. */
  const DefaultColors := ColorSet("bg-gray-100 text-gray-800 border-gray-200",
                                  "bg-gray-700/50 text-gray-200 border-gray-500/50")

  /** The contest categories, in the order the table lists them. */
  const ContestCategories: seq<string> := ["3", "5", "8", "10", "15", "20", "25", "30"]

  function GetCategoryColor(category: string, isDarkMode: bool): string {
    var colorSet := if category in CategoryColors then CategoryColors[category] else DefaultColors;
    if isDarkMode then colorSet.dark else colorSet.light
  }

  /** A listed category gets its own entry, any other the gray default, and
      `isDarkMode` only chooses between the two variants of that entry. */
  lemma CategoryColorLookup(category: string, isDarkMode: bool)
    ensures category in CategoryColors <==> category in ContestCategories
    ensures category in ContestCategories ==>
      GetCategoryColor(category, isDarkMode) ==
        if isDarkMode then CategoryColors[category].dark else CategoryColors[category].light
    ensures category !in ContestCategories ==>
      GetCategoryColor(category, isDarkMode) ==
        if isDarkMode then DefaultColors.dark else DefaultColors.light
  {
  }

  // ---------------------------------------------------------------------------
  // getGradeColor
  // ---------------------------------------------------------------------------

  /** The six grade bands, from the highest down. */
  datatype Band = Gold | Green | Blue | Orange | Amber | Red

  /** The first band whose threshold the grade reaches. */
  function GradeBand(grade: int): Band {
    if grade >= 95 then Gold
    else if grade >= 90 then Green
    else if grade >= 80 then Blue
    else if grade >= 70 then Orange
    else if grade >= 60 then Amber
    else Red
  }

  /** The position of a band, 5 for the highest and 0 for the lowest. */
  function BandLevel(b: Band): nat {
    match b
    case Gold => 5
    case Green => 4
    case Blue => 3
    case Orange => 2
    case Amber => 1
    case Red => 0
  }

  /** The lowest grade of each band; the lowest band has none. */
  function BandFloor(b: Band): Option<int> {
    match b
    case Gold => Some(95)
    case Green => Some(90)
    case Blue => Some(80)
    case Orange => Some(70)
    case Amber => Some(60)
    case Red => None
  }

  function BandColor(b: Band, isDarkMode: bool): string {
    match b
    case Gold =>
      if isDarkMode then "bg-gradient-to-r from-yellow-600 to-yellow-500 text-yellow-100"
      else "bg-gradient-to-r from-yellow-400 to-yellow-500 text-yellow-900"
    case Green =>
      if isDarkMode then "bg-gradient-to-r from-green-600 to-green-500 text-green-100"
      else "bg-gradient-to-r from-green-400 to-green-500 text-green-900"
    case Blue =>
      if isDarkMode then "bg-gradient-to-r from-blue-600 to-blue-500 text-blue-100"
      else "bg-gradient-to-r from-blue-400 to-blue-500 text-blue-900"
    case Orange =>
      if isDarkMode then "bg-gradient-to-r from-orange-600 to-orange-500 text-orange-100"
      else "bg-gradient-to-r from-orange-400 to-orange-500 text-orange-900"
    case Amber =>
      if isDarkMode then "bg-gradient-to-r from-yellow-700 to-yellow-600 text-yellow-100"
      else "bg-gradient-to-r from-yellow-500 to-yellow-600 text-yellow-900"
    case Red =>
      if isDarkMode then "bg-gradient-to-r from-red-600 to-red-500 text-red-100"
      else "bg-gradient-to-r from-red-400 to-red-500 text-red-900"
  }

  function GetGradeColor(grade: int, isDarkMode: bool): string {
    BandColor(GradeBand(grade), isDarkMode)
  }

  /** The grade just above each band; the highest band has none. */
  function BandCeiling(b: Band): Option<int> {
    match b
    case Gold => None
    case Green => Some(95)
    case Blue => Some(90)
    case Orange => Some(80)
    case Amber => Some(70)
    case Red => Some(60)
  }

  /** `grade` lies in the half-open interval of band `b`. */
  predicate InBand(grade: int, b: Band) {
    (BandFloor(b).Some? ==> grade >= BandFloor(b).value)
    && (BandCeiling(b).Some? ==> grade < BandCeiling(b).value)
  }

  /** The bands partition the grades: a grade gets band `b` exactly when it lies in
      `b`'s interval, and the intervals meet end to end. */
  lemma GradeBandInterval(grade: int, b: Band)
    ensures GradeBand(grade) == b <==> InBand(grade, b)
    ensures BandCeiling(b).Some? ==>
      exists a: Band :: BandLevel(a) == BandLevel(b) + 1 && BandFloor(a) == BandCeiling(b)
  {
    var above: Band := match b
      case Gold => Gold case Green => Gold case Blue => Green
      case Orange => Blue case Amber => Orange case Red => Amber;
    assert BandCeiling(b).Some? ==> BandLevel(above) == BandLevel(b) + 1 && BandFloor(above) == BandCeiling(b);
  }

  /** A higher grade never falls into a lower band. */
  lemma GradeBandMonotone(g1: int, g2: int)
    requires g1 <= g2
    ensures BandLevel(GradeBand(g1)) <= BandLevel(GradeBand(g2))
  {
  }
}
