/** The search box of src/components/SearchSection.tsx: the length check on the
    query, the scoring of the candidate rows the database returns, the choice of
    the best match and its rank within its category, and the state the search
    handler writes. The database is an input: the candidate rows, the table the
    rank query runs against, and whether the connection test succeeds. */
module SearchSection {
  import opened Seqs
  import opened TextNormalizer
  import opened Records

  // ---------------------------------------------------------------------------
  // Query validation

  /** A query is refused when it has no word, or a single word of fewer than
      three characters. */
  predicate TooShort(terms: seq<string>) {
    |terms| == 0 || (|terms| == 1 && |terms[0]| < 3)
  }

  lemma {:induction false} JoinHasSpace(parts: seq<string>)
    requires |parts| >= 2
    ensures ' ' in Join(parts)
  {
    var j := parts[0] + [' '] + Join(parts[1..]);
    assert j[|parts[0]|] == ' ';
  }

  /** The query is refused exactly when its normalised form is shorter than three
      characters and holds no space (it is one short word, or nothing). */
  lemma RejectionIff(query: string)
    ensures TooShort(GetSearchTerms(query)) <==>
      (|NormalizeText(query)| < 3 && ' ' !in NormalizeText(query))
  {
    var terms := GetSearchTerms(query);
    var n := NormalizeText(query);
    SearchTermsAreWords(query);
    if |terms| >= 2 {
      JoinHasSpace(terms);
    } else if |terms| == 1 {
      assert n == terms[0];
      assert ' ' !in terms[0] by {
        assert forall c :: c in terms[0] ==> !IsSpace(c);
      }
    }
  }

  /** Once the length check has passed, the query's trimmed form is not empty, so
      the handler's later test for an empty trimmed query never succeeds. */
  lemma TrimBranchUnreachable(query: string)
    requires !TooShort(GetSearchTerms(query))
    ensures Trim(query) != []
  {
    SearchTermsAreWords(query);
  }

  // ---------------------------------------------------------------------------
  // Scoring

  /** `w` occurs in `s` at position `i`. */
  predicate OccursAt(s: string, w: string, i: int) {
    0 <= i && i + |w| <= |s| && s[i..i + |w|] == w
  }

  /** `s.includes(w)`. */
  predicate Includes(s: string, w: string) {
    exists i :: 0 <= i <= |s| - |w| && OccursAt(s, w, i)
  }

  /** `s.startsWith(w)`. */
  predicate StartsWith(s: string, w: string) {
    |w| <= |s| && s[..|w|] == w
  }

  /** Every term occurs in the name. */
  predicate AllIncluded(name: string, terms: seq<string>) {
    forall k :: 0 <= k < |terms| ==> Includes(name, terms[k])
  }

  /** How many of the terms occur in the normalised name. */
  function MatchedTerms(name: string, terms: seq<string>): (m: nat)
    ensures m <= |terms|
    ensures m == |terms| <==> AllIncluded(name, terms)
  {
    if terms == [] then 0
    else MatchedTerms(name, terms[..|terms| - 1]) + (if Includes(name, terms[|terms| - 1]) then 1 else 0)
  }

  /** The largest score a candidate can reach with these terms. */
  function MaxScore(terms: seq<string>): nat { 10 * |terms| + 70 }

  /** The score of a candidate with normalised name `name` against the normalised
      query `nq` and its terms: 10 per term found in the name, 50 when the name is
      the query, 20 when the name starts with the first term. */
  function Score(name: string, nq: string, terms: seq<string>): nat
    requires terms != []
  {
    10 * MatchedTerms(name, terms) + (if name == nq then 50 else 0)
    + (if StartsWith(name, terms[0]) then 20 else 0)
  }

  /** No score exceeds the maximum, and the maximum is reached exactly by a name
      that is the query, starts with the first term and holds every term. */
  lemma ScoreMaximal(name: string, nq: string, terms: seq<string>)
    requires terms != []
    ensures Score(name, nq, terms) <= MaxScore(terms)
    ensures Score(name, nq, terms) == MaxScore(terms) <==>
      name == nq && StartsWith(name, terms[0]) && AllIncluded(name, terms)
  {
    var m := MatchedTerms(name, terms);
    assert m <= |terms|;
  }

  /** The score of a candidate's raw name against the normalised query `nq` and
      its terms. */
  function CandidateScore(name: string, nq: string, terms: seq<string>): nat
    requires terms != []
  {
    Score(NormalizeText(name), nq, terms)
  }

  /** The per-term accumulation of one candidate's score. */
  method ScoreCandidate(name: string, query: string, terms: seq<string>) returns (score: nat)
    requires terms != []
    ensures score == CandidateScore(name, NormalizeText(query), terms)
  {
    var normalizedName := NormalizeText(name);
    score := 0;
    var k := 0;
    while k < |terms|
      invariant 0 <= k <= |terms|
      invariant score == 10 * MatchedTerms(normalizedName, terms[..k])
    {
      assert terms[..k + 1][..k] == terms[..k];
      if Includes(normalizedName, terms[k]) {
        score := score + 10;
      }
      k := k + 1;
    }
    assert terms[..k] == terms;
    if normalizedName == NormalizeText(query) {
      score := score + 50;
    }
    if StartsWith(normalizedName, terms[0]) {
      score := score + 20;
    }
  }

  /** Each part of a joined list occurs in the joined text. */
  lemma {:induction false} PartInJoin(parts: seq<string>, k: nat)
    requires k < |parts|
    ensures Includes(Join(parts), parts[k])
  {
    var j := Join(parts);
    if k == 0 {
      FirstPartStartsJoin(parts);
      assert OccursAt(j, parts[0], 0);
    } else {
      var rest := Join(parts[1..]);
      PartInJoin(parts[1..], k - 1);
      assert parts[1..][k - 1] == parts[k];
      var w := parts[k];
      assert Includes(rest, w);
      var i :| 0 <= i <= |rest| - |w| && OccursAt(rest, w, i);
      var off := |parts[0]| + 1;
      assert j == parts[0] + [' '] + rest;
      assert 0 <= i && i + |parts[k]| <= |rest|;
      assert j[off + i..off + i + |parts[k]|] == rest[i..i + |parts[k]|];
      assert OccursAt(j, parts[k], off + i);
    }
  }

  lemma FirstPartStartsJoin(parts: seq<string>)
    requires parts != []
    ensures StartsWith(Join(parts), parts[0])
  {
    if |parts| > 1 {
      assert (parts[0] + [' '] + Join(parts[1..]))[..|parts[0]|] == parts[0];
    }
  }

  /** A candidate reaches the largest score exactly when its normalised name is
      the normalised query: then every term occurs in it and it starts with the
      first term. */
  lemma ExactMatchIffMaxScore(name: string, query: string)
    requires GetSearchTerms(query) != []
    ensures CandidateScore(name, NormalizeText(query), GetSearchTerms(query)) <= MaxScore(GetSearchTerms(query))
    ensures CandidateScore(name, NormalizeText(query), GetSearchTerms(query)) == MaxScore(GetSearchTerms(query)) <==>
      NormalizeText(name) == NormalizeText(query)
  {
    var terms := GetSearchTerms(query);
    SearchTermsAreWords(query);
    ScoreMaximal(NormalizeText(name), NormalizeText(query), terms);
    if NormalizeText(name) == NormalizeText(query) {
      forall k | 0 <= k < |terms| ensures Includes(NormalizeText(name), terms[k]) {
        PartInJoin(terms, k);
      }
      FirstPartStartsJoin(terms);
    }
  }

  // ---------------------------------------------------------------------------
  // Best match

  /** `b` is the first position holding the largest score. */
  predicate IsFirstMax(scores: seq<nat>, b: nat) {
    b < |scores|
    && (forall i :: 0 <= i < |scores| ==> scores[i] <= scores[b])
    && (forall i :: 0 <= i < b ==> scores[i] < scores[b])
  }

  /** The first position of the largest score. */
  function FirstMax(scores: seq<nat>): (b: nat)
    requires scores != []
    ensures IsFirstMax(scores, b)
  {
    if |scores| == 1 then 0
    else
      var b' := FirstMax(scores[..|scores| - 1]);
      if scores[|scores| - 1] > scores[b'] then |scores| - 1 else b'
  }

  lemma FirstMaxStep(scores: seq<nat>, i: nat)
    requires 0 < i < |scores|
    ensures FirstMax(scores[..i + 1]) ==
      if scores[i] > scores[FirstMax(scores[..i])] then i else FirstMax(scores[..i])
  {
    assert scores[..i + 1][..i] == scores[..i];
  }

  lemma FirstMaxUnique(scores: seq<nat>, b: nat, c: nat)
    requires IsFirstMax(scores, b) && IsFirstMax(scores, c)
    ensures b == c
  {
    assert scores[b] == scores[c];
  }

  function Scores(data: seq<DbRow>, nq: string, terms: seq<string>): (scores: seq<nat>)
    requires terms != []
    ensures |scores| == |data|
  {
    Map(data, CandidateScoreOf(nq, terms))
  }

  function CandidateScoreOf(nq: string, terms: seq<string>): DbRow --> nat {
    (r: DbRow) requires terms != [] => CandidateScore(r.name, nq, terms)
  }

  /** The score at position `i` is the score of candidate `i`. */
  lemma ScoresAt(data: seq<DbRow>, nq: string, terms: seq<string>, i: nat)
    requires terms != [] && i < |data|
    ensures Scores(data, nq, terms)[i] == CandidateScore(data[i].name, nq, terms)
  {
    MapAt(data, CandidateScoreOf(nq, terms), i);
  }

  /** After `i` candidates, `best` and `bestScore` are the first position of the
      largest score so far and that score, or 0 and 0 before any candidate. */
  predicate BestSoFar(scores: seq<nat>, i: nat, best: nat, bestScore: nat) {
    i <= |scores|
    && (i == 0 ==> best == 0 && bestScore == 0)
    && (i > 0 ==> best == FirstMax(scores[..i]) && bestScore == scores[best])
  }

  lemma BestSoFarStep(scores: seq<nat>, i: nat, best: nat, bestScore: nat)
    requires i < |scores| && BestSoFar(scores, i, best, bestScore)
    ensures scores[i] > bestScore ==> BestSoFar(scores, i + 1, i, scores[i])
    ensures scores[i] <= bestScore ==> BestSoFar(scores, i + 1, best, bestScore)
  {
    if i > 0 {
      FirstMaxStep(scores, i);
    }
  }

  /** The candidate the search picks: starting from the first row with score 0,
      a row replaces the current best only with a strictly higher score. */
  method SelectBestMatch(data: seq<DbRow>, query: string, terms: seq<string>) returns (best: nat)
    requires data != [] && terms != []
    ensures best == FirstMax(Scores(data, NormalizeText(query), terms))
  {
    ghost var scores := Scores(data, NormalizeText(query), terms);
    best := 0;
    var bestScore := 0;
    var i := 0;
    while i < |data|
      invariant BestSoFar(scores, i, best, bestScore)
    {
      var score := ScoreCandidate(data[i].name, query, terms);
      ScoresAt(data, NormalizeText(query), terms, i);
      BestSoFarStep(scores, i, best, bestScore);
      if score > bestScore {
        bestScore := score;
        best := i;
      }
      i := i + 1;
    }
    assert scores[..i] == scores;
  }

  /** When some candidate's normalised name equals the normalised query, the first
      such candidate is the one picked. */
  lemma FirstExactMatchSelected(data: seq<DbRow>, query: string, i: nat)
    requires GetSearchTerms(query) != []
    requires i < |data| && NormalizeText(data[i].name) == NormalizeText(query)
    requires forall j :: 0 <= j < i ==> NormalizeText(data[j].name) != NormalizeText(query)
    ensures FirstMax(Scores(data, NormalizeText(query), GetSearchTerms(query))) == i
  {
    var scores := Scores(data, NormalizeText(query), GetSearchTerms(query));
    var terms := GetSearchTerms(query);
    var nq := NormalizeText(query);
    var b := FirstMax(scores);
    ExactMatchIffMaxScore(data[i].name, query);
    ExactMatchIffMaxScore(data[b].name, query);
    ScoresAt(data, nq, terms, i);
    ScoresAt(data, nq, terms, b);
    forall j | 0 <= j < i ensures scores[j] < scores[i] {
      ExactMatchIffMaxScore(data[j].name, query);
      ScoresAt(data, nq, terms, j);
    }
  }

  // ---------------------------------------------------------------------------
  // Rank within the category

  /** `.eq('category', c)`: SQL equality, never true when either side is NULL. */
  predicate SqlCategoryEq(column: CategoryValue, c: CategoryValue) {
    !column.Absent? && !c.Absent? && column == c
  }

  /** `.gt('grade', g)`: SQL comparison, never true when either side is NULL. */
  predicate SqlGradeGt(column: Option<int>, g: Option<int>) {
    column.Some? && g.Some? && column.value > g.value
  }

  /** The rows of the table in category `c` with a grade strictly above `g`. */
  function RowsAbove(table: seq<DbRow>, c: CategoryValue, g: Option<int>): seq<DbRow> {
    Filter(table, Above(c, g))
  }

  /** The filter of the rank query: same category, strictly higher grade. */
  function Above(c: CategoryValue, g: Option<int>): DbRow -> bool {
    (r: DbRow) => SqlCategoryEq(r.category, c) && SqlGradeGt(r.grade, g)
  }

  /** `(rankData?.length || 0) + 1`: the rank query returns the rows above, or
      nothing when it fails. */
  function RankOf(table: Option<seq<DbRow>>, c: CategoryValue, g: Option<int>): (rank: nat)
    ensures rank >= 1
    ensures table.None? || c.Absent? || g.None? ==> rank == 1
    ensures table.Some? ==> rank == |RowsAbove(table.value, c, g)| + 1
  {
    match table
    case None => 1
    case Some(rows) =>
      if c.Absent? || g.None? then FilterNone(rows, Above(c, g)); 1
      else |RowsAbove(rows, c, g)| + 1
  }

  /** `calculateRankInCategory`: the same count, for a grade and a category given
      directly; a failed query gives rank 1. The category is taken as a value of the
      column's own type: the database's cast of a text argument to a numeric column
      is not modelled. */
  function CalculateRankInCategory(table: Option<seq<DbRow>>, grade: int, category: CategoryValue): (rank: nat)
    ensures rank >= 1
    ensures table.None? ==> rank == 1
    ensures table.Some? ==> rank == |RowsAbove(table.value, category, Some(grade))| + 1
  {
    RankOf(table, category, Some(grade))
  }

  lemma {:induction false} FilterCountMonotone(s: seq<DbRow>, p: DbRow -> bool, q: DbRow -> bool)
    requires forall r :: p(r) ==> q(r)
    ensures |Filter(s, p)| <= |Filter(s, q)|
  {
    if s != [] {
      FilterCountMonotone(s[..|s| - 1], p, q);
    }
  }

  lemma {:induction false} FilterCountStrict(s: seq<DbRow>, p: DbRow -> bool, q: DbRow -> bool, x: DbRow)
    requires forall r :: p(r) ==> q(r)
    requires x in s && q(x) && !p(x)
    ensures |Filter(s, p)| < |Filter(s, q)|
  {
    var n := |s| - 1;
    FilterCountMonotone(s[..n], p, q);
    assert Filter(s, p) == Filter(s[..n], p) + (if p(s[n]) then [s[n]] else []);
    assert Filter(s, q) == Filter(s[..n], q) + (if q(s[n]) then [s[n]] else []);
    if s[n] != x {
      assert x in s[..n];
      FilterCountStrict(s[..n], p, q, x);
    }
  }

  /** In one category, a row of the table with a strictly higher grade has a
      strictly better (smaller) rank. */
  lemma RankOrder(table: seq<DbRow>, a: DbRow, b: DbRow)
    requires a in table
    requires SqlCategoryEq(a.category, b.category) && SqlGradeGt(a.grade, b.grade)
    ensures RankOf(Some(table), a.category, a.grade) < RankOf(Some(table), b.category, b.grade)
  {
    FilterCountStrict(table, Above(a.category, a.grade), Above(b.category, b.grade), a);
  }

  /** A grade that no row of its category in the table exceeds ranks first. */
  lemma TopRank(table: seq<DbRow>, c: CategoryValue, g: Option<int>)
    requires forall r :: r in table ==> !(SqlCategoryEq(r.category, c) && SqlGradeGt(r.grade, g))
    ensures RankOf(Some(table), c, g) == 1
  {
    FilterNone(table, Above(c, g));
  }

  /** The rows of the table in category `c`. */
  function InCategory(c: CategoryValue): DbRow -> bool {
    (r: DbRow) => SqlCategoryEq(r.category, c)
  }

  /** The rank of a row of the table never exceeds the number of rows in its category. */
  lemma RankWithinCategory(table: seq<DbRow>, a: DbRow)
    requires a in table && !a.category.Absent?
    ensures RankOf(Some(table), a.category, a.grade) <= |Filter(table, InCategory(a.category))|
  {
    FilterCountStrict(table, Above(a.category, a.grade), InCategory(a.category), a);
  }

  // ---------------------------------------------------------------------------
  // The search handler

  /** The error the search box shows; the message texts are represented by tags. */
  datatype SearchError = NoError | QueryTooShort | NoConnection | QueryFailed(message: string)

  /** The response of the candidate query: rows, or a failure with its message. */
  datatype QueryResponse = Rows(rows: seq<DbRow>) | Failure(message: string)

  /** What a search ends with, as far as the handler's code goes. */
  datatype SearchOutcome =
    | Rejected
    | ConnectionFailed
    | QueryError(message: string)
    | NoCandidates
    | Matched(best: nat, rank: nat)

  /** The outcome of searching for `query` when the connection test gives
      `connectionOk`, the candidate query gives `response`, and the rank query runs
      against `table`. */
  function SearchOutcomeOf(query: string, connectionOk: bool, response: QueryResponse,
                           table: Option<seq<DbRow>>): (o: SearchOutcome)
    ensures o.Rejected? <==> TooShort(GetSearchTerms(query))
    ensures o.ConnectionFailed? <==> !TooShort(GetSearchTerms(query)) && !connectionOk
  {
    var terms := GetSearchTerms(query);
    if TooShort(terms) then Rejected
    else AfterLengthCheck(NormalizeText(query), terms, connectionOk, response, table)
  }

  /** The outcome once the query has passed the length check. */
  function AfterLengthCheck(nq: string, terms: seq<string>, connectionOk: bool, response: QueryResponse,
                            table: Option<seq<DbRow>>): (o: SearchOutcome)
    requires terms != []
    ensures !o.Rejected?
    ensures o.ConnectionFailed? <==> !connectionOk
  {
    if !connectionOk then ConnectionFailed
    else match response
      case Failure(msg) => QueryError(msg)
      case Rows(rows) =>
        if rows == [] then NoCandidates
        else
          var b := FirstMax(Scores(rows, nq, terms));
          Matched(b, RankOf(table, rows[b].category, rows[b].grade))
  }

  /** Candidate `i` is the first whose normalised name is `nq`. */
  predicate FirstExactMatch(rows: seq<DbRow>, nq: string, i: int) {
    0 <= i < |rows| && NormalizeText(rows[i].name) == nq
    && forall j :: 0 <= j < i ==> NormalizeText(rows[j].name) != nq
  }

  /** A search with a match picks the first candidate of largest score, which is
      the first candidate whose normalised name is the normalised query when there
      is one, and its rank is the count of rows above it in its category, plus one. */
  lemma MatchedOutcome(query: string, connectionOk: bool, response: QueryResponse,
                       table: Option<seq<DbRow>>)
    requires SearchOutcomeOf(query, connectionOk, response, table).Matched?
    ensures response.Rows? && response.rows != []
    ensures var o := SearchOutcomeOf(query, connectionOk, response, table);
      o.best < |response.rows|
      && IsFirstMax(Scores(response.rows, NormalizeText(query), GetSearchTerms(query)), o.best)
      && o.rank == RankOf(table, response.rows[o.best].category, response.rows[o.best].grade)
    ensures forall i :: FirstExactMatch(response.rows, NormalizeText(query), i) ==>
      SearchOutcomeOf(query, connectionOk, response, table).best == i
  {
    var rows := response.rows;
    forall i | FirstExactMatch(rows, NormalizeText(query), i)
      ensures SearchOutcomeOf(query, connectionOk, response, table).best == i
    {
      FirstExactMatchSelected(rows, query, i);
    }
  }

  /** The length check comes before the connection test and every query: a
      refused query has the same outcome whatever the database would answer. */
  lemma RejectionBeforeIO(query: string, c1: bool, r1: QueryResponse, t1: Option<seq<DbRow>>,
                          c2: bool, r2: QueryResponse, t2: Option<seq<DbRow>>)
    requires TooShort(GetSearchTerms(query))
    ensures SearchOutcomeOf(query, c1, r1, t1) == SearchOutcomeOf(query, c2, r2, t2) == Rejected
  {
  }

  /** The state of the search box: the typed query, the loading flag, the error
      shown, and how many times the handler has reported "no result". */
  class SearchView {
    var searchTerm: string
    var isLoading: bool
    var searchError: SearchError
    var nullReports: nat

    constructor ()
      ensures searchTerm == [] && !isLoading && searchError == NoError && nullReports == 0
    {
      searchTerm := [];
      isLoading := false;
      searchError := NoError;
      nullReports := 0;
    }

    method SetSearchTerm(text: string)
      modifies this
      ensures searchTerm == text
      ensures isLoading == old(isLoading) && searchError == old(searchError)
      ensures nullReports == old(nullReports)
    {
      searchTerm := text;
    }

    /** `handleSearch`. A refused query sets the error and reports no result without
        touching the loading flag; otherwise the error is cleared, loading starts and
        the database is consulted (`QueryDatabase`). */
    method HandleSearch(connectionOk: bool, response: QueryResponse, table: Option<seq<DbRow>>)
      returns (outcome: SearchOutcome)
      modifies this
      ensures outcome == SearchOutcomeOf(old(searchTerm), connectionOk, response, table)
      ensures searchTerm == old(searchTerm)
      ensures outcome.Rejected? ==>
        searchError == QueryTooShort && isLoading == old(isLoading) && nullReports == old(nullReports) + 1
      ensures outcome.ConnectionFailed? ==>
        searchError == NoConnection && !isLoading && nullReports == old(nullReports) + 1
      ensures outcome.QueryError? ==>
        searchError == QueryFailed(outcome.message) && nullReports == old(nullReports) + 1
    {
      var query := searchTerm;
      var searchWords := GetSearchTerms(query);
      if TooShort(searchWords) {
        searchError := QueryTooShort;
        nullReports := nullReports + 1;
        return Rejected;
      }
      // The source's test for an empty trimmed query cannot succeed here.
      TrimBranchUnreachable(query);
      searchError := NoError;
      isLoading := true;
      outcome := QueryDatabase(query, searchWords, connectionOk, response, table);
    }

    /** The part of `handleSearch` after the length check, with loading started: a
        failed connection test or candidate query sets its error and reports no
        result, and a non-empty candidate list yields the first best match and its
        rank. */
    method QueryDatabase(query: string, searchWords: seq<string>, connectionOk: bool,
                         response: QueryResponse, table: Option<seq<DbRow>>)
      returns (outcome: SearchOutcome)
      requires searchWords != []
      modifies this
      ensures outcome == AfterLengthCheck(NormalizeText(query), searchWords, connectionOk, response, table)
      ensures searchTerm == old(searchTerm)
      ensures outcome.ConnectionFailed? ==>
        searchError == NoConnection && !isLoading && nullReports == old(nullReports) + 1
      ensures outcome.QueryError? ==>
        searchError == QueryFailed(outcome.message) && nullReports == old(nullReports) + 1
    {
      if !connectionOk {
        searchError := NoConnection;
        nullReports := nullReports + 1;
        isLoading := false;
        return ConnectionFailed;
      }
      match response {
        case Failure(msg) =>
          searchError := QueryFailed(msg);
          nullReports := nullReports + 1;
          outcome := QueryError(msg);
        case Rows(data) =>
          if |data| > 0 {
            var best := SelectBestMatch(data, query, searchWords);
            var rank := RankOf(table, data[best].category, data[best].grade);
            outcome := Matched(best, rank);
          } else {
            outcome := NoCandidates;
          }
      }
    }
  }
}
