/** The "all results" panel of src/components/AllResultsSection.tsx: the list of
    ranked results, the category filter over it, and the password gate in front
    of it. Loading the list is a database query; its answer is an input of
    `FetchResults`. */
module AllResults {
  import opened Seqs
  import opened Records
  import opened Ranking

  // ---------------------------------------------------------------------------
  // The category list and the filter

  /** The value of the filter that shows every category. */
  const AllCategories: string := "all"

  function ResultCategory(r: RankedResult): string { r.category }

  /** `[...new Set(results.map(r => r.category))]`. */
  function Categories(results: seq<RankedResult>): seq<string> {
    Dedup(Map(results, ResultCategory))
  }

  function HasCategory(c: string): RankedResult -> bool {
    (r: RankedResult) => r.category == c
  }

  /** The rows shown for the selected category: all of them for `'all'`, else
      those of that category. */
  function FilteredResults(results: seq<RankedResult>, selected: string): seq<RankedResult> {
    if selected == AllCategories then results else Filter(results, HasCategory(selected))
  }

  /** Each category is listed once, every listed category is the category of some
      row and every row's category is listed, in order of first occurrence. */
  lemma CategoriesListed(results: seq<RankedResult>)
    ensures Distinct(Categories(results))
    ensures forall c :: c in Categories(results) <==> exists i :: 0 <= i < |results| && results[i].category == c
    ensures forall i, j :: 0 <= i < j < |Categories(results)| ==>
      FirstIndex(Map(results, ResultCategory), Categories(results)[i])
      < FirstIndex(Map(results, ResultCategory), Categories(results)[j])
  {
    var cats := Map(results, ResultCategory);
    DedupFirstOccurrence(cats);
    forall c ensures c in cats <==> exists i :: 0 <= i < |results| && results[i].category == c {
      if c in cats {
        var i :| 0 <= i < |cats| && cats[i] == c;
        MapAt(results, ResultCategory, i);
      }
      forall i | 0 <= i < |results| && results[i].category == c ensures c in cats {
        MapAt(results, ResultCategory, i);
      }
    }
  }

  /** With a particular category selected, the filter keeps exactly the rows of
      that category, and filtering again changes nothing. */
  lemma FilteredResultsSelect(results: seq<RankedResult>, selected: string)
    requires selected != AllCategories
    ensures forall r :: r in FilteredResults(results, selected) <==> r in results && r.category == selected
    ensures FilteredResults(FilteredResults(results, selected), selected) == FilteredResults(results, selected)
    ensures |FilteredResults(results, selected)| <= |results|
  {
    var f := FilteredResults(results, selected);
    FilterAll(f, HasCategory(selected));
  }

  /** The filter of the ranked list on one category is the numbered block of that
      category: its rows in descending grade with ranks 1, 2, ...; a category that
      no row has shows nothing. */
  lemma FilteredRankedBlock(rows: seq<DbRow>, k: string)
    requires k != AllCategories
    ensures FilteredResults(RankAll(rows), k) ==
      if k in GroupOrder(rows) then RankBlock(SortedGroup(rows, k)) else []
  {
    GroupOrderCovers(rows);
    FilterRankKeys(rows, GroupOrder(rows), k);
  }

  lemma {:induction false} FilterRankKeys(rows: seq<DbRow>, keys: seq<string>, k: string)
    requires Distinct(keys)
    ensures Filter(RankKeys(rows, keys), HasCategory(k)) ==
      if k in keys then RankBlock(SortedGroup(rows, k)) else []
  {
    if keys != [] {
      var n := |keys| - 1;
      var front := keys[..n];
      var a := RankKeys(rows, front);
      var b := RankBlock(SortedGroup(rows, keys[n]));
      assert RankKeys(rows, keys) == a + b;
      assert k in keys <==> k in front || k == keys[n] by {
        assert keys == front + [keys[n]];
      }
      assert keys[n] !in front;
      FilterRankKeys(rows, front, k);
      FilterConcat(a, b, HasCategory(k));
      BlockFilter(rows, keys[n], k);
    }
  }

  /** Every row of the numbered block of key `k` has category `k`. */
  lemma BlockCategory(rows: seq<DbRow>, k: string)
    ensures forall x :: x in RankBlock(SortedGroup(rows, k)) ==> x.category == k
  {
    var b := RankBlock(SortedGroup(rows, k));
    BlockFacts(rows, k);
    forall x | x in b ensures x.category == k {
      var i :| 0 <= i < |b| && b[i] == x;
    }
  }

  lemma BlockFilter(rows: seq<DbRow>, key: string, k: string)
    ensures Filter(RankBlock(SortedGroup(rows, key)), HasCategory(k)) ==
      if key == k then RankBlock(SortedGroup(rows, key)) else []
  {
    var b := RankBlock(SortedGroup(rows, key));
    BlockCategory(rows, key);
    if key == k {
      FilterAll(b, HasCategory(k));
    } else {
      FilterNone(b, HasCategory(k));
    }
  }

  /** The category list of the ranked list is the `Object.keys` order of the
      groups. */
  lemma RankedCategoriesInKeyOrder(rows: seq<DbRow>)
    ensures Categories(RankAll(rows)) == GroupOrder(rows)
  {
    var keys := GroupOrder(rows);
    GroupOrderCovers(rows);
    forall k | k in keys ensures Group(rows, k) != [] {
      var i :| 0 <= i < |rows| && Key(rows[i]) == k;
      assert HasKey(k)(rows[i]);
    }
    CategoriesOfRankKeys(rows, keys);
  }

  lemma {:induction false} CategoriesOfRankKeys(rows: seq<DbRow>, keys: seq<string>)
    requires Distinct(keys)
    requires forall k :: k in keys ==> Group(rows, k) != []
    ensures Categories(RankKeys(rows, keys)) == keys
  {
    if keys != [] {
      var n := |keys| - 1;
      var front, k := keys[..n], keys[n];
      var a := RankKeys(rows, front);
      var b := RankBlock(SortedGroup(rows, k));
      assert RankKeys(rows, keys) == a + b;
      assert keys == front + [k];
      assert k !in front;
      assert Categories(a) == front by {
        CategoriesOfRankKeys(rows, front);
      }
      var ma, mb := Map(a, ResultCategory), Map(b, ResultCategory);
      MapConcat(a, b, ResultCategory);
      assert mb != [] && forall x :: x in mb ==> x == k by {
        BlockFacts(rows, k);
        assert k in keys;
        BlockCategory(rows, k);
        MapOfConstant(b, k);
      }
      assert k !in ma by {
        CategoriesIn(rows, front);
        MapAvoids(a, front, k);
      }
      DedupAppendBlock(ma, mb, k);
    }
  }

  /** The categories of rows that all have category `k` are all `k`. */
  lemma MapOfConstant(b: seq<RankedResult>, k: string)
    requires forall x :: x in b ==> x.category == k
    ensures forall x :: x in Map(b, ResultCategory) ==> x == k
  {
    var mb := Map(b, ResultCategory);
    forall x | x in mb ensures x == k {
      var i :| 0 <= i < |mb| && mb[i] == x;
      MapAt(b, ResultCategory, i);
      assert b[i] in b;
    }
  }

  /** A key missing from `keys` is not the category of a row whose category is one
      of `keys`. */
  lemma MapAvoids(a: seq<RankedResult>, keys: seq<string>, k: string)
    requires forall i :: 0 <= i < |a| ==> a[i].category in keys
    requires k !in keys
    ensures k !in Map(a, ResultCategory)
  {
    var ma := Map(a, ResultCategory);
    forall i | 0 <= i < |ma| ensures ma[i] != k {
      MapAt(a, ResultCategory, i);
    }
  }

  // ---------------------------------------------------------------------------
  // The panel

  /** The error shown under the password field; the message text is represented
      by a tag. */
  datatype PasswordError = NoPasswordError | WrongPassword

  /** The answer of the list query: the rows (`data`, possibly missing), or an
      error. */
  datatype FetchResponse = Data(rows: Option<seq<DbRow>>) | FetchError

  /** The ranked list a response yields: nothing on an error, and the ranking of
      the returned rows (none when the data is missing) otherwise. */
  function Fetched(response: FetchResponse): seq<RankedResult> {
    match response
    case FetchError => []
    case Data(data) => RankAll(if data.Some? then data.value else [])
  }

  /** The work `fetchResults` does once the query has answered. */
  method LoadResponse(response: FetchResponse) returns (formatted: seq<RankedResult>)
    ensures formatted == Fetched(response)
  {
    formatted := [];
    if response.Data? {
      formatted := CalculateRanksInCategories(if response.rows.Some? then response.rows.value else []);
    }
  }

  /** The state of the panel. `fetchRequests` counts the calls the handlers make to
      `fetchResults`; the answer of each one arrives through `FetchResults`. */
  class AllResultsView {
    var isExpanded: bool
    var selectedCategory: string
    var results: seq<RankedResult>
    var isLoading: bool
    var showPasswordModal: bool
    var password: string
    var isAuthenticated: bool
    var passwordError: PasswordError
    var fetchRequests: nat
    /** The administrator password the panel compares against. */
    const correctPassword: string

    /** The list is shown only to an authenticated user, and the password dialog
        is only ever open for an unauthenticated one. */
    ghost predicate Valid()
      reads this
    {
      (isExpanded ==> isAuthenticated) && (showPasswordModal ==> !isAuthenticated)
    }

    constructor (secret: string)
      ensures Valid()
      ensures correctPassword == secret
      ensures !isExpanded && selectedCategory == AllCategories && results == [] && !isLoading
      ensures !showPasswordModal && password == [] && !isAuthenticated && passwordError == NoPasswordError
      ensures fetchRequests == 0
    {
      correctPassword := secret;
      isExpanded := false;
      selectedCategory := AllCategories;
      results := [];
      isLoading := false;
      showPasswordModal := false;
      password := [];
      isAuthenticated := false;
      passwordError := NoPasswordError;
      fetchRequests := 0;
    }

    /** The rows the panel shows. */
    function Shown(): seq<RankedResult>
      reads this
    {
      FilteredResults(results, selectedCategory)
    }

    /** Typing into the password field. */
    method SetPassword(text: string)
      requires Valid()
      modifies this
      ensures Valid()
      ensures password == text
      ensures isExpanded == old(isExpanded) && isAuthenticated == old(isAuthenticated)
      ensures showPasswordModal == old(showPasswordModal) && passwordError == old(passwordError)
      ensures results == old(results) && selectedCategory == old(selectedCategory)
      ensures isLoading == old(isLoading) && fetchRequests == old(fetchRequests)
    {
      password := text;
    }

    /** Choosing an entry of the category filter. */
    method SelectCategory(c: string)
      requires Valid()
      modifies this
      ensures Valid()
      ensures selectedCategory == c
      ensures isExpanded == old(isExpanded) && isAuthenticated == old(isAuthenticated)
      ensures showPasswordModal == old(showPasswordModal) && passwordError == old(passwordError)
      ensures password == old(password) && results == old(results)
      ensures isLoading == old(isLoading) && fetchRequests == old(fetchRequests)
      ensures c == AllCategories ==> Shown() == results
      ensures c != AllCategories ==> forall r :: r in Shown() <==> r in results && r.category == c
    {
      selectedCategory := c;
      if c != AllCategories {
        FilteredResultsSelect(results, c);
      }
    }

    /** `handleExpand`: an expanded panel collapses; a collapsed one asks for the
        password when the user is not authenticated, and otherwise expands,
        starting a fetch when no result is loaded yet. */
    method HandleExpand()
      requires Valid()
      modifies this
      ensures Valid()
      ensures old(isExpanded) ==> !isExpanded && showPasswordModal == old(showPasswordModal)
      ensures !old(isExpanded) && !old(isAuthenticated) ==> showPasswordModal && !isExpanded
      ensures !old(isExpanded) && old(isAuthenticated) ==> isExpanded && showPasswordModal == old(showPasswordModal)
      ensures fetchRequests == old(fetchRequests) + (if !old(isExpanded) && old(isAuthenticated) && old(results) == [] then 1 else 0)
      ensures isAuthenticated == old(isAuthenticated) && password == old(password)
      ensures passwordError == old(passwordError) && results == old(results)
      ensures selectedCategory == old(selectedCategory) && isLoading == old(isLoading)
    {
      if !isExpanded {
        if !isAuthenticated {
          showPasswordModal := true;
        } else if |results| == 0 {
          fetchRequests := fetchRequests + 1;
          isExpanded := true;
        } else {
          isExpanded := true;
        }
      } else {
        isExpanded := false;
      }
    }

    /** `handlePasswordSubmit`: the right password authenticates, closes the
        dialog, clears the field and the error, starts a fetch when no result is
        loaded yet, and expands the panel; a wrong one shows the error and clears
        the field, and nothing else changes. */
    method HandlePasswordSubmit()
      requires Valid()
      modifies this
      ensures Valid()
      ensures password == []
      ensures old(password) == correctPassword ==>
        isAuthenticated && isExpanded && !showPasswordModal && passwordError == NoPasswordError
        && fetchRequests == old(fetchRequests) + (if old(results) == [] then 1 else 0)
      ensures old(password) != correctPassword ==>
        passwordError == WrongPassword && isAuthenticated == old(isAuthenticated)
        && isExpanded == old(isExpanded) && showPasswordModal == old(showPasswordModal)
        && fetchRequests == old(fetchRequests)
      ensures results == old(results) && selectedCategory == old(selectedCategory) && isLoading == old(isLoading)
    {
      if password == correctPassword {
        isAuthenticated := true;
        showPasswordModal := false;
        passwordError := NoPasswordError;
        password := [];
        if |results| == 0 {
          fetchRequests := fetchRequests + 1;
        }
        isExpanded := true;
      } else {
        passwordError := WrongPassword;
        password := [];
      }
    }

    /** `handleCloseModal`: the dialog closes and the field and the error are
        cleared. */
    method HandleCloseModal()
      requires Valid()
      modifies this
      ensures Valid()
      ensures !showPasswordModal && password == [] && passwordError == NoPasswordError
      ensures isExpanded == old(isExpanded) && isAuthenticated == old(isAuthenticated)
      ensures results == old(results) && selectedCategory == old(selectedCategory)
      ensures isLoading == old(isLoading) && fetchRequests == old(fetchRequests)
    {
      showPasswordModal := false;
      password := [];
      passwordError := NoPasswordError;
    }

    /** `fetchResults`, once its queries have answered: a failed connection test
        empties the list without touching the loading flag; otherwise the list
        becomes the ranking of the rows (none when `data` is missing), or empty on
        a query error, and loading ends. */
    method FetchResults(connectionOk: bool, response: FetchResponse)
      requires Valid()
      modifies this
      ensures Valid()
      ensures !connectionOk ==> results == [] && isLoading == old(isLoading)
      ensures connectionOk ==> !isLoading
      ensures connectionOk ==> results == Fetched(response)
      ensures isExpanded == old(isExpanded) && isAuthenticated == old(isAuthenticated)
      ensures showPasswordModal == old(showPasswordModal) && password == old(password)
      ensures passwordError == old(passwordError) && selectedCategory == old(selectedCategory)
      ensures fetchRequests == old(fetchRequests)
    {
      if !connectionOk {
        results := [];
        return;
      }
      isLoading := true;
      results := LoadResponse(response);
      isLoading := false;
    }
  }
}
