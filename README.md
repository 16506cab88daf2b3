# Contest results: a verified model

This project models the core of a contest results site. Students look up their
result by name. An administrator, behind a password, browses all results ranked
within each category. The site also shows statistics for the contest.
The model covers three parts. All of them are verified in Dafny.

- **The search box** (`SearchSection.tsx`):
  - the text normalisation of Arabic names: trimming, collapsing white space,
    folding the alef, ya, ta marbuta and hamza variants, and lower-casing;
  - the split of a query into search words, and the length check that refuses a
    query;
  - the score of each candidate row, and the choice of the first best match;
  - the rank of a result within its category, computed from the rows of the
    table (assuming SQL treatment of null in the rank query);
  - the state the search handler writes.
- **The "all results" panel** (`AllResultsSection.tsx`):
  - the bulk ranking `calculateRanksInCategories`. It groups the rows by category
    into a dictionary, sorts each group stably by descending grade and numbers it
    1, 2, and so on. The groups are emitted in the iteration order of
    `Object.keys`, which is modelled after section 10.1.11.1 of ECMA-262: array
    indices ascending, then the other keys in creation order;
  - the category list and the category filter;
  - the password gate: `handleExpand`, `handlePasswordSubmit`,
    `handleCloseModal`;
  - the effect of a completed `fetchResults`.
- **The statistics and colour helpers** (`contestStats.ts`):
  - `calculateStats`: total, distinct categories, rounded mean and maximum of the
    positive grades, and the per-category counts dictionary filled by a loop;
  - `getCategoryColor`, the badge colour lookup;
  - `getGradeColor`, the grade bands.

Files, in dependency order:

- `seqs.dfy`: filter, map and duplicate removal in first-occurrence order.
- `object_keys.dfy`: the `Object.keys` order.
- `records.dfy`: database rows and the category and grade coercions.
- `text_normalizer.dfy`: `normalizeText` and `getSearchTerms`.
- `search_section.dfy`: validation, scoring, best match, rank, `handleSearch`.
- `ranking.dfy`: `calculateRanksInCategories`.
- `all_results.dfy`: the filter and the panel's state machine.
- `contest_stats.dfy`: statistics and colours.

The database, the connection test and the network are inputs of the model:

- the connection test is a `connectionOk` flag;
- the candidate query is a `QueryResponse`;
- the table the rank query runs against is an optional row list, where `None`
  means the query failed;
- the bulk query is a `FetchResponse`.

Operations that work step by step are methods with loop invariants. Each method
is proved equal to a specification function, and the lemmas about that function
state the properties. These methods are:

- the scoring loops;
- the best-match loop;
- the grouping loop, where the dictionary is a `map` built one `push` at a time;
- the per-key ranking loop;
- the count loop of `calculateStats`.

The two React components are classes. Their fields are the components'
`useState` variables, plus two counters the model adds for calls it cannot
follow: `nullReports` counts the calls to `onSearch(null)`, and `fetchRequests`
counts the calls to `fetchResults`.

Two consequences of the code are easy to miss:

- **Score of an exact match.** A name equal to the query also starts with the
  first search word, so it gets the 20 points of `SearchSection.tsx:150-152` on
  top of the 50 for the exact match. An exact match therefore scores
  `10 * words + 70`, which is 90 for two words. `ScoreMaximal` and
  `ExactMatchIffMaxScore` state this.
- **Order of the groups.** The bulk ranking walks the groups in `Object.keys`
  order (`AllResultsSection.tsx:38`). That order puts integer-like categories
  first, in ascending numeric order, and the other categories after them in
  first-seen order. `RankAllGroupOrder` and `OwnPropertyKeysIndicesFirst` state
  this.

## Model

| member | source | states |
|---|---|---|
| TextNormalizer.ReplacementChainFolds | src/components/SearchSection.tsx:21-25 | the four `replace` calls and `toLowerCase`, applied in the source's order, equal folding every character by one map that sends the alef variants to alef, alef maksura to ya, ta marbuta to ha, hamza-bearing waw and ya to hamza, and upper-case ASCII to lower case |
| TextNormalizer.TrimStartShape | src/components/SearchSection.tsx:19 | left trimming drops exactly a prefix of white-space characters and leaves a text that is empty or starts with a non-space |
| TextNormalizer.TrimEndShape | src/components/SearchSection.tsx:19 | right trimming drops exactly a suffix of white space and leaves a text that is empty or ends with a non-space |
| TextNormalizer.TrimShape | src/components/SearchSection.tsx:19 | a trimmed text neither starts nor ends with white space, and it is empty exactly when the input is all white space |
| TextNormalizer.CollapseShape | src/components/SearchSection.tsx:20 | after `replace(/\s+/g, ' ')` every white-space character is a plain space and no two spaces are adjacent |
| TextNormalizer.CollapseKeepsNonSpaces | src/components/SearchSection.tsx:20 | collapsing keeps every character that is not white space, in order, so only white space changes |
| TextNormalizer.CollapseRun | src/components/SearchSection.tsx:20 | a run of white space before a word, or at the end, becomes exactly one space, so two words separated by any run stay two words separated by one space |
| TextNormalizer.CollapseAppend | src/components/SearchSection.tsx:20 | the collapse of a text that is cut just after a non-space character is the collapse of each part, joined; with `CollapseRun` this pins down the result run by run |
| TextNormalizer.NormalizeTextShape | src/components/SearchSection.tsx:17-26 | the normalised text has no white space at either end, its only white space is single plain spaces, every letter is folded and lower-case, and it is empty exactly when the trimmed input is empty |
| TextNormalizer.NormalizeIdempotent | src/components/SearchSection.tsx:17-26 | normalising twice gives the same text as normalising once |
| TextNormalizer.FoldLettersIdempotent | src/components/SearchSection.tsx:21-25 | applying the letter replacements a second time changes nothing |
| TextNormalizer.NormalizeOfFolded | src/components/SearchSection.tsx:17-26 | folding the letters first and then trimming and collapsing gives the same text as the source's order |
| TextNormalizer.NormalizeRespectsFolding | src/components/SearchSection.tsx:21-25 | two texts of equal length whose characters fold pairwise to the same letter normalise to the same text |
| TextNormalizer.AlefVariantsAgree | src/components/SearchSection.tsx:21 | writing any alef variant in place of a plain alef does not change the normalised text |
| TextNormalizer.Split | src/components/SearchSection.tsx:31 | `split(' ')` gives at least one piece, no piece holds a space, and joining the pieces with single spaces gives back the text |
| TextNormalizer.SearchTermsBranches | src/components/SearchSection.tsx:29-44 | the three branches of `getSearchTerms` (one word, `slice(0, max(2, n))`, otherwise) all return exactly the non-empty pieces |
| TextNormalizer.SearchTermsAreWords | src/components/SearchSection.tsx:29-44 | the search words are non-empty and free of white space, joining them with spaces gives the normalised query, and there are none exactly when the normalised query is empty |
| SearchSection.RejectionIff | src/components/SearchSection.tsx:72 | a query is refused exactly when its normalised form is shorter than three characters and holds no space |
| SearchSection.TrimBranchUnreachable | src/components/SearchSection.tsx:78-82 | a query that passes the length check has a non-empty trimmed form, so the empty-query branch after it can never be taken |
| SearchSection.MatchedTerms | src/components/SearchSection.tsx:138-142 | the number of words found is at most the number of words, and equals it exactly when every word occurs in the name |
| SearchSection.ScoreMaximal | src/components/SearchSection.tsx:133-153 | no score exceeds `10 * words + 70`, and a name reaches it exactly when it equals the query, starts with the first word and holds every word |
| SearchSection.ScoreCandidate | src/components/SearchSection.tsx:134-153 | the accumulation loop computes 10 per word found, plus 50 for an exact match, plus 20 for a name starting with the first word |
| SearchSection.ExactMatchIffMaxScore | src/components/SearchSection.tsx:133-153 | a candidate reaches the largest score exactly when its normalised name equals the normalised query |
| SearchSection.FirstMax | src/components/SearchSection.tsx:154-157 | the position chosen holds the largest score and no earlier position holds that score |
| SearchSection.FirstMaxUnique | src/components/SearchSection.tsx:154-157 | only one position holds the largest score with no earlier position holding it, so the best match is determined |
| SearchSection.SelectBestMatch | src/components/SearchSection.tsx:129-158 | the loop that starts from the first row with score 0 and replaces it only on a strictly higher score ends on the first row of largest score |
| SearchSection.FirstExactMatchSelected | src/components/SearchSection.tsx:129-158 | when some candidate's normalised name equals the normalised query, the first such candidate is the one picked |
| SearchSection.RankOf | src/components/SearchSection.tsx:161-169 | the rank is at least 1; it is 1 when the query fails, and also when the category or grade is null, on the assumption that the database treats `.eq`/`.gt` against null as SQL does (never true); otherwise it is one more than the number of rows of the same category with a strictly higher grade |
| SearchSection.CalculateRankInCategory | src/components/SearchSection.tsx:47-65 | the rank is at least 1; it is 1 when the query fails, and otherwise one more than the number of rows of the category with a strictly higher grade |
| SearchSection.RankOrder | src/components/SearchSection.tsx:161-169 | in one category, a row with a strictly higher grade has a strictly smaller rank |
| SearchSection.TopRank | src/components/SearchSection.tsx:161-169 | a grade that no row of its category exceeds has rank 1 |
| SearchSection.RankWithinCategory | src/components/SearchSection.tsx:161-169 | the rank of a row of the table is at most the number of rows in its category |
| SearchSection.SearchOutcomeOf | src/components/SearchSection.tsx:67-95 | a search is rejected exactly when the query is too short, and the connection failure is reported exactly when the query passes and the connection test fails |
| SearchSection.AfterLengthCheck | src/components/SearchSection.tsx:84-127 | after the length check the outcome is never a rejection, and it is a connection failure exactly when the connection test fails |
| SearchSection.MatchedOutcome | src/components/SearchSection.tsx:127-169 | a match comes from a non-empty candidate list; it is the first row of largest score, and the first exact match when there is one; its rank is the rank query's count plus one |
| SearchSection.RejectionBeforeIO | src/components/SearchSection.tsx:72-76 | a refused query has the same outcome whatever the database would answer |
| SearchSection.SearchView.SetSearchTerm | src/components/SearchSection.tsx:219 | typing into the search box sets the search term and leaves the loading flag, the error and the reports unchanged |
| SearchSection.SearchView.HandleSearch | src/components/SearchSection.tsx:67-169 | the outcome a search ends with; for a refused query and a failed connection, the error, loading flag and "no result" report it leaves; for a failed candidate query, the error and the report |
| SearchSection.SearchView.QueryDatabase | src/components/SearchSection.tsx:84-169 | the outcome after the length check; the error, loading flag and report of a failed connection, and the error and report of a failed candidate query |
| Records.CategoryKey | src/components/AllResultsSection.tsx:29 | the grouping key is never empty; a missing category becomes the "unspecified" label, and so does an empty string; any other string is kept |
| Records.NatToString | src/components/AllResultsSection.tsx:29 | `toString` of a natural number, in the range where it writes plain digits, is a non-empty string of decimal digits without a leading zero |
| Records.NatToStringValue | src/components/AllResultsSection.tsx:29 | the digits `toString` writes denote the number itself |
| Records.IntToStringRoundTrip | src/components/AllResultsSection.tsx:29 | `toString` of an integer reads back, sign and digits, as the same integer |
| Records.NumberKey | src/components/AllResultsSection.tsx:29 | a non-negative numeric category's key is the canonical numeral of its value, so it is an array-index key exactly when the value is at most 2^32 - 2 |
| Records.NumberKeysDistinct | src/components/AllResultsSection.tsx:29 | different numeric categories have different grouping keys |
| ObjectKeys.CanonicalInjective | src/components/AllResultsSection.tsx:38 | two different canonical digit strings denote different numbers, so array-index keys sort without ties |
| ObjectKeys.SortByIndexSpec | src/components/AllResultsSection.tsx:38 | the array-index keys are sorted by numeric value and are a permutation of the input keys |
| ObjectKeys.OwnPropertyKeysListsEachOnce | src/components/AllResultsSection.tsx:38 | `Object.keys` lists each key of the dictionary exactly once |
| ObjectKeys.OwnPropertyKeysIndicesFirst | src/components/AllResultsSection.tsx:38 | every array-index key comes before every other key, and the array-index keys ascend numerically |
| ObjectKeys.OwnPropertyKeysNamedOrder | src/components/AllResultsSection.tsx:38 | the keys that are not array indices keep their creation order |
| Ranking.SortDesc | src/components/AllResultsSection.tsx:40 | the sort by `(b.grade \|\| 0) - (a.grade \|\| 0)` gives grades in descending order and a permutation of the group |
| Ranking.SortDescStable | src/components/AllResultsSection.tsx:40 | the sort is stable: rows of equal grade keep their relative order |
| Ranking.BlockFacts | src/components/AllResultsSection.tsx:39-48 | the numbered block of a key has one entry per row of its group; every entry carries that key as category, entry `i` has rank `i + 1`, and the grades never increase along the block |
| Ranking.GroupByCategory | src/components/AllResultsSection.tsx:25-34 | the loop builds the dictionary one `push` at a time, and records the keys in creation order |
| Ranking.GroupedIsGroups | src/components/AllResultsSection.tsx:25-34 | the dictionary maps each key that occurs to exactly the rows with that key, in row order, and holds no other key |
| Ranking.CalculateRanksInCategories | src/components/AllResultsSection.tsx:24-54 | the method computes the ranked list: for each key in `Object.keys` order, its group sorted and numbered |
| Ranking.RankAllPermutation | src/components/AllResultsSection.tsx:24-54 | every input row appears exactly once in the ranked list, which is empty for an empty input |
| Ranking.RankAllContiguous | src/components/AllResultsSection.tsx:37-51 | the rows of one category form one contiguous run |
| Ranking.RankAllNumbering | src/components/AllResultsSection.tsx:46 | each run starts at rank 1, counts up by one, and ends at the category's size |
| Ranking.RankAllGradesDescending | src/components/AllResultsSection.tsx:40 | within a category, grades do not increase along the list |
| Ranking.RankAllFields | src/components/AllResultsSection.tsx:41-48 | entry `i` of the ranked list carries the number, name and grouping key of row `i` of the grouped and sorted input, and its grade or 0 |
| Ranking.RankAllGroupOrder | src/components/AllResultsSection.tsx:38 | a category that is an array index comes before any other category and after smaller indices; the other categories appear in first-seen order |
| Ranking.RankAllStable | src/components/AllResultsSection.tsx:40 | within a category, rows of equal grade appear in input order |
| AllResults.CategoriesListed | src/components/AllResultsSection.tsx:94 | the category list holds each category of the results exactly once, in order of first occurrence |
| AllResults.FilteredResultsSelect | src/components/AllResultsSection.tsx:95-97 | with a category selected, the filter keeps exactly the rows of that category; filtering again changes nothing |
| AllResults.AllResultsView.SetPassword | src/components/AllResultsSection.tsx:196 | typing into the password field sets the password and no other field |
| AllResults.AllResultsView.SelectCategory | src/components/AllResultsSection.tsx:325-339 | choosing "all" or a category sets the selection and nothing else; the rows shown are then all results, or exactly those of the chosen category |
| AllResults.FilteredRankedBlock | src/components/AllResultsSection.tsx:95-97 | filtering the ranked list on a category gives that category's numbered block, or nothing for a category no row has |
| AllResults.RankedCategoriesInKeyOrder | src/components/AllResultsSection.tsx:94 | the category list of the ranked list is the `Object.keys` order of the groups |
| AllResults.LoadResponse | src/components/AllResultsSection.tsx:74-84 | a query error gives an empty list; data gives the ranking of its rows, and no rows when the data is missing |
| AllResults.AllResultsView.HandleExpand | src/components/AllResultsSection.tsx:99-112 | an expanded panel collapses; a collapsed one asks for the password when the user is not authenticated; otherwise it expands and fetches when nothing is loaded; the panel is only ever expanded when the user is authenticated |
| AllResults.AllResultsView.HandlePasswordSubmit | src/components/AllResultsSection.tsx:114-129 | the right password authenticates, closes the dialog, clears the field and the error, fetches if nothing is loaded, and expands; a wrong one sets the error, clears the field and leaves the rest |
| AllResults.AllResultsView.HandleCloseModal | src/components/AllResultsSection.tsx:131-135 | the dialog closes and the field and the error are cleared; the rest is unchanged |
| AllResults.AllResultsView.FetchResults | src/components/AllResultsSection.tsx:57-92 | a failed connection test empties the list; otherwise the list becomes the response's ranking and loading ends |
| ContestStats.CountCategories | src/utils/contestStats.ts:20-24 | the `forEach` loop builds the dictionary one `(count \|\| 0) + 1` step at a time |
| ContestStats.TallyCounts | src/utils/contestStats.ts:20-24 | the dictionary's keys are exactly the categories that occur, each holding its number of students |
| ContestStats.CountsSumToTotal | src/utils/contestStats.ts:14-24 | summed over the category list, the counts add up to the number of students |
| ContestStats.CalculateStats | src/utils/contestStats.ts:3-33 | the method returns the statistics record of the list |
| ContestStats.StatsCounts | src/utils/contestStats.ts:4-24 | a missing or empty list gives all-zero statistics; otherwise the total is the number of students, the dictionary's keys are the listed categories with their counts, and the counts sum to the total |
| ContestStats.StatsCategories | src/utils/contestStats.ts:15 | the category list holds each student's category exactly once, in order of first appearance |
| ContestStats.PositiveGradesAre | src/utils/contestStats.ts:16 | the grades used are exactly the students' grades above zero |
| ContestStats.StatsGrades | src/utils/contestStats.ts:16-18 | without positive grades, the average and the top grade are 0; with them, the top grade is their maximum and one of them, the average is their mean rounded half up, and the lowest ≤ the average ≤ the top |
| ContestStats.MaxOfIsMaximum | src/utils/contestStats.ts:18 | `Math.max` of a non-empty list is an element of it and no element is larger |
| ContestStats.RoundHalfUpNearest | src/utils/contestStats.ts:17 | `Math.round(sum / n)` is the unique integer `r` with `r - 1/2 <= sum / n < r + 1/2` |
| ContestStats.RoundedMeanBetween | src/utils/contestStats.ts:17 | the rounded mean of values between two bounds stays between them |
| ContestStats.CategoryColorLookup | src/utils/contestStats.ts:35-78 | the eight contest categories get their table entry, every other category gets the gray default, and the dark-mode flag only picks the variant |
| ContestStats.GradeBandInterval | src/utils/contestStats.ts:80-105 | a grade gets a band exactly when it lies in that band's half-open interval, and the intervals meet end to end |
| ContestStats.GradeBandMonotone | src/utils/contestStats.ts:80-105 | a higher grade never falls into a lower band |

## Left out

- The Supabase client, `testSupabaseConnection`, `executeSupabaseQuery` and its
  retries, and `handleSupabaseError`. `src/utils/supabase.ts` is not part of this
  model. Their answers are inputs: a connection flag, a response value, and a
  message string.
- The `ilike` conditions and the `limit(10)` of the candidate query. The rows the
  query returns are an input; nothing is assumed about how they were chosen.
- The `order(...)` clauses of the bulk query. The ranking is proved for rows in
  any order, and the database's row order is an input.
- The part of `handleSearch` after the rank, which builds the result record and
  calls `onSearch`. The source file is cut short at that point. For the same
  reason, `onSearch(null)` is modelled only as a count of "no result" reports.
- SearchSection.SearchView.HandleSearch and SearchSection.SearchView.QueryDatabase:
  they promise nothing about the loading flag once the candidate query has been
  sent, and nothing about the error or the reports when it returns rows. The
  source text ends inside the `try` block that sends that query
  (`SearchSection.tsx:97`), so whatever its `catch` or `finally` does there is
  unknown.
- Rendering, icons, dark mode classes on the page and the key handler for Enter.
  `MainPage.tsx`, `ResultCard.tsx` and `StatsSection.tsx` are not part of this
  model.
- The error message texts. They are represented by tags (`QueryTooShort`,
  `NoConnection`, `WrongPassword`); the database error message is kept as a
  string.
- The `catch` branches that handle thrown exceptions. Only the returned-error
  paths are modelled.
- Asynchrony. `fetchResults` runs asynchronously in the source. The handlers
  record a request in `fetchRequests`, and `FetchResults` models its completion
  as one step. Interleavings of several pending fetches are not modelled.
  `handleSearch` is modelled as one step from the click to the outcome.
- `toLowerCase` beyond ASCII. Only `A`–`Z` are lowered. Arabic letters have no
  case, and other scripts are outside the names the site holds.
- Length in UTF-16 units. The length check counts characters. For the Arabic and
  Latin letters of the names this agrees with JavaScript's UTF-16 length, but it
  differs for characters outside the Basic Multilingual Plane.
- Dictionary keys inherited from `Object.prototype`, such as `constructor` or
  `toString`. Both dictionaries (`categorizedResults` and `categoriesCount`) and
  the colour table are modelled as maps of own properties only.
- Records.NatToString, Records.NumberKey and Records.NumberKeysDistinct: numeric
  categories are modelled as integers written in plain decimal digits, which is
  what `toString` does for integers below 2^53 in magnitude. From 10^21 on it
  writes exponent form, above 2^53 distinct database integers can become the same
  double and so the same key, and a fractional category such as 2.5 cannot be
  represented. These lemmas hold of the program only in the plain-integer range.
- What the database does with a null category or grade passed to `.eq` or `.gt`
  (`SearchSection.tsx:166-167`). The model assumes SQL semantics, in which a
  comparison with null is never true, so such a rank is 1.
- Floating-point grades. Grades are integers, and the mean is rounded exactly.
  Non-integer grades and rounding error in the sum are not modelled.
- The engine's limit on the number of arguments of a spread call, both in
  `Math.max(...grades)` (`contestStats.ts:18`) and in
  `rankedResults.push(...categoryResults)` (`AllResultsSection.tsx:50`); very large
  inputs that would exceed it are not modelled.
- The category of a `Student` is a string. The `types.ts` file that defines it is
  not part of this model.
- The password itself. The administrator password is a parameter of the panel's
  constructor, and its value is not part of the model.
- GetCategoryColor: the lemmas do not state that different categories get
  different badge class strings.
- GetGradeColor: the lemmas are about the bands. They do not state that
  different bands get different class strings.
