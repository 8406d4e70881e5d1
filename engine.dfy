/** The page's search-and-filter state (window.allData, currentDataset,
    searchTerm, activeFilters and highlightEnabled) and the handlers that
    change it. Every handler is one atomic transition that ends with the
    current dataset equal to the query of the full dataset under the new term
    and filters. */
module Engine {
  import opened Basics
  import opened Strings
  import opened Records
  import opened QueryEngine
  import opened Options
  import opened Presentation
  import Csv

  /** removeFilter's `values.filter((item) => item !== value)`. */
  function Without(vs: seq<string>, v: string): (r: seq<string>)
    ensures v !in r
    ensures forall x :: x != v ==> (x in r <==> x in vs)
    decreases |vs|
  {
    if |vs| == 0 then []
    else
      assert forall x :: x in vs <==> x == vs[0] || x in vs[1..];
      (if vs[0] != v then [vs[0]] else []) + Without(vs[1..], v)
  }

  /** Only the occurrences of the value go, and the rest keep their order. */
  lemma {:induction false} WithoutKeepsOrder(vs: seq<string>, v: string)
    ensures IsSubseq(Without(vs, v), vs)
    ensures |Without(vs, v)| + multiset(vs)[v] == |vs|
    decreases |vs|
  {
    if |vs| > 0 {
      WithoutKeepsOrder(vs[1..], v);
      assert vs == [vs[0]] + vs[1..];
      assert multiset(vs) == multiset{vs[0]} + multiset(vs[1..]);
      if vs[0] == v {
        assert Without(vs, v) == Without(vs[1..], v);
        SubseqCons(Without(vs[1..], v), vs[1..], vs[0]);
      } else {
        var w := [vs[0]] + Without(vs[1..], v);
        assert w[1..] == Without(vs[1..], v);
      }
    }
  }

  /** Selecting one value in a category without a selection and then removing
      it through its chip gives back the filters as they were. */
  lemma SelectThenRemove(f: Filters, c: Category, v: string)
    requires f.Get(c) == []
    ensures f.With(c, [v]).With(c, Without([v], v)) == f
  {
    assert Without([v], v) == [];
    var g := f.With(c, [v]).With(c, []);
    assert forall d :: g.Get(d) == f.Get(d);
  }

  class SearchFilterState {
    /** window.allData: collected once when the page loads. */
    const allData: seq<Record>
    /** window.currentDataset: the result of the last query. */
    var currentDataset: seq<Record>
    /** window.searchTerm: trimmed and lower-cased. */
    var searchTerm: string
    /** window.activeFilters */
    var activeFilters: Filters
    /** window.highlightEnabled */
    var highlightEnabled: bool
    /** The results-count element: None while it is hidden, otherwise the
        text it shows. */
    var resultsCount: Option<string>

    /** The current dataset is always the query of the full dataset, and the
        stored term is always trimmed and lower-case. Without criteria the
        count line is hidden; with criteria and a non-empty result it counts
        that result. With criteria and an empty result it may be stale. */
    ghost predicate Valid()
      reads this
    {
      currentDataset == Query(allData, searchTerm, activeFilters)
      && NoUpper(searchTerm) && Trim(searchTerm) == searchTerm
      && (searchTerm == "" && !HasActiveFilters() ==> resultsCount == None)
      && (currentDataset != [] && (searchTerm != "" || HasActiveFilters()) ==>
            resultsCount == Some(CountLine(|currentDataset|, |allData|, searchTerm)))
    }

    /** The page load: initializeData over the rendered drop-downs, with no
        term, no filters, highlighting off and the count line hidden. */
    constructor (tables: seq<DepartmentTable>)
      ensures Valid()
      ensures allData == Extract(tables) && currentDataset == allData
      ensures searchTerm == "" && activeFilters == NoFilters && !highlightEnabled
      ensures resultsCount == None
    {
      var records := CollectRecords(tables);
      allData := records;
      currentDataset := records;
      searchTerm := "";
      activeFilters := NoFilters;
      highlightEnabled := false;
      resultsCount := None;
      new;
      QueryUnfiltered(records);
    }

    /** hasActiveFilters */
    function HasActiveFilters(): (b: bool)
      reads this
      ensures b <==> exists c :: |activeFilters.Get(c)| > 0
    {
      QueryEngine.HasActiveFilters(activeFilters)
    }

    /** What displayResults does to the count line: hideSearchResults hides
        it without criteria, an empty result leaves it as it was, and
        otherwise updateResultsCount shows the count. */
    method DisplayResults()
      modifies this
      ensures resultsCount ==
                (if searchTerm == "" && !HasActiveFilters() then None
                 else if currentDataset == [] then old(resultsCount)
                 else Some(CountLine(|currentDataset|, |allData|, searchTerm)))
      ensures currentDataset == old(currentDataset) && searchTerm == old(searchTerm)
      ensures activeFilters == old(activeFilters) && highlightEnabled == old(highlightEnabled)
    {
      if searchTerm == "" && !HasActiveFilters() {
        resultsCount := None;
      } else if currentDataset != [] {
        resultsCount := Some(CountLine(|currentDataset|, |allData|, searchTerm));
      }
    }

    /** What updateFilterChips does to the count line: with a filter active
        it shows the count, also for an empty result. */
    method UpdateFilterChips()
      modifies this
      ensures resultsCount ==
                (if HasActiveFilters() then Some(CountLine(|currentDataset|, |allData|, searchTerm))
                 else old(resultsCount))
      ensures currentDataset == old(currentDataset) && searchTerm == old(searchTerm)
      ensures activeFilters == old(activeFilters) && highlightEnabled == old(highlightEnabled)
    {
      if HasActiveFilters() {
        resultsCount := Some(CountLine(|currentDataset|, |allData|, searchTerm));
      }
    }

    /** applySearchAndFilters over the stored term and filters, ending with
        displayResults. */
    method Apply()
      requires NoUpper(searchTerm) && Trim(searchTerm) == searchTerm
      modifies this
      ensures Valid()
      ensures searchTerm == old(searchTerm) && activeFilters == old(activeFilters)
      ensures highlightEnabled == old(highlightEnabled)
      ensures currentDataset == [] && (searchTerm != "" || HasActiveFilters()) ==>
                resultsCount == old(resultsCount)
    {
      currentDataset := ApplySearchAndFilters(allData, searchTerm, activeFilters);
      DisplayResults();
    }

    /** clearSearch: the term goes; with filters the query runs again, without
        them the full dataset is shown and the results are hidden. */
    method ClearSearch()
      modifies this
      ensures Valid()
      ensures searchTerm == "" && activeFilters == old(activeFilters)
      ensures highlightEnabled == old(highlightEnabled)
      ensures !HasActiveFilters() ==> currentDataset == allData && resultsCount == None
      ensures HasActiveFilters() && currentDataset == [] ==> resultsCount == old(resultsCount)
    {
      searchTerm := "";
      if HasActiveFilters() {
        Apply();
      } else {
        currentDataset := allData;
        resultsCount := None;
        QueryUnfiltered(allData);
      }
    }

    /** handleSearchInput: the input is trimmed and lower-cased; an empty term
        clears the search, any other runs the query. A term that leaves
        nothing keeps the count line that was on screen. */
    method HandleSearchInput(input: string)
      modifies this
      ensures Valid()
      ensures searchTerm == Lower(Trim(input))
      ensures activeFilters == old(activeFilters) && highlightEnabled == old(highlightEnabled)
      ensures currentDataset == [] && (searchTerm != "" || HasActiveFilters()) ==>
                resultsCount == old(resultsCount)
    {
      var term := Lower(Trim(input));
      LowerIsLower(Trim(input));
      LowerTrim(Trim(input));
      TrimIdempotent(input);
      searchTerm := term;
      if term == "" {
        ClearSearch();
      } else {
        Apply();
      }
    }

    /** toggleHighlight: the flag flips, and the results are redrawn when
        there are criteria; the data and the count line stay. */
    method ToggleHighlight()
      requires Valid()
      modifies this
      ensures Valid()
      ensures highlightEnabled == !old(highlightEnabled)
      ensures currentDataset == old(currentDataset) && searchTerm == old(searchTerm)
      ensures activeFilters == old(activeFilters) && resultsCount == old(resultsCount)
    {
      highlightEnabled := !highlightEnabled;
      if searchTerm != "" || HasActiveFilters() {
        DisplayResults();
      }
    }

    /** handleFilterChange: the category's selection is replaced by the
        selected options, the query runs again and the chips are redrawn,
        which shows the count whenever a filter is active. */
    method HandleFilterChange(c: Category, selected: seq<string>)
      requires Valid()
      modifies this
      ensures Valid()
      ensures activeFilters == old(activeFilters).With(c, selected)
      ensures searchTerm == old(searchTerm) && highlightEnabled == old(highlightEnabled)
      ensures HasActiveFilters() ==>
                resultsCount == Some(CountLine(|currentDataset|, |allData|, searchTerm))
      ensures !HasActiveFilters() && searchTerm != "" && currentDataset == [] ==>
                resultsCount == old(resultsCount)
    {
      activeFilters := activeFilters.With(c, selected);
      Apply();
      UpdateFilterChips();
    }

    /** removeFilter: every occurrence of the value leaves the category, the
        other categories stay, the query runs again and the chips are
        redrawn. */
    method RemoveFilter(c: Category, v: string)
      requires Valid()
      modifies this
      ensures Valid()
      ensures activeFilters == old(activeFilters).With(c, Without(old(activeFilters).Get(c), v))
      ensures v !in activeFilters.Get(c)
      ensures forall d :: d != c ==> activeFilters.Get(d) == old(activeFilters).Get(d)
      ensures searchTerm == old(searchTerm) && highlightEnabled == old(highlightEnabled)
      ensures HasActiveFilters() ==>
                resultsCount == Some(CountLine(|currentDataset|, |allData|, searchTerm))
      ensures !HasActiveFilters() && searchTerm != "" && currentDataset == [] ==>
                resultsCount == old(resultsCount)
    {
      activeFilters := activeFilters.With(c, Without(activeFilters.Get(c), v));
      Apply();
      UpdateFilterChips();
    }

    /** clearAllFilters: every category empties and only the search applies;
        the chips are redrawn, which leaves the count line to the query. */
    method ClearAllFilters()
      requires Valid()
      modifies this
      ensures Valid()
      ensures activeFilters == NoFilters && !HasActiveFilters()
      ensures currentDataset == Query(allData, searchTerm, NoFilters)
      ensures searchTerm == old(searchTerm) && highlightEnabled == old(highlightEnabled)
      ensures searchTerm == "" ==> resultsCount == None
      ensures searchTerm != "" && currentDataset == [] ==> resultsCount == old(resultsCount)
    {
      activeFilters := NoFilters;
      Apply();
      UpdateFilterChips();
    }

    /** showFilterPanel: the panel offers the available options and ends by
        redrawing the chips, which rewrites the count line whenever a filter
        is active. Nothing else the model tracks changes. */
    method ShowFilterPanel() returns (offered: FilterOptions)
      requires Valid()
      modifies this
      ensures Valid()
      ensures offered == AvailableOptions()
      ensures currentDataset == old(currentDataset)
      ensures searchTerm == old(searchTerm) && activeFilters == old(activeFilters)
      ensures highlightEnabled == old(highlightEnabled)
      ensures resultsCount ==
                (if HasActiveFilters() then Some(CountLine(|currentDataset|, |allData|, searchTerm))
                 else old(resultsCount))
    {
      offered := AvailableOptions();
      UpdateFilterChips();
    }

    /** getAvailableFilterOptions: without a term the options come from the
        full dataset; with one, from the current result, on which the filters
        have acted as well. */
    function AvailableOptions(): (o: FilterOptions)
      requires Valid()
      reads this
      ensures searchTerm == "" ==> o == DeriveOptions(allData)
      ensures searchTerm != "" ==> o == DeriveOptions(Query(allData, searchTerm, activeFilters))
    {
      DeriveOptions(if searchTerm != "" then currentDataset else allData)
    }

    /** What displayResults shows in the results area for the current state. */
    function View(): (v: View)
      requires Valid()
      reads this
      ensures v.Results? ==> |v.rows| == |currentDataset| <= |allData|
      ensures v.Results? ==> resultsCount == Some(CountLine(|currentDataset|, |allData|, searchTerm))
      ensures v.Hidden? <==> searchTerm == "" && !HasActiveFilters()
      ensures v.Hidden? ==> resultsCount == None
    {
      QueryIsSubseq(allData, searchTerm, activeFilters);
      assert QueryEngine.HasActiveFilters(activeFilters) == HasActiveFilters();
      Display(currentDataset, searchTerm, activeFilters, highlightEnabled)
    }

    /** The export button: the CSV text of the current result. The button
        is only drawn with the results table, and there the result is never
        empty; the empty case is exportResults' own guard. */
    method Export() returns (csv: Option<string>)
      requires Valid()
      ensures View().Results? ==> csv.Some?
      ensures currentDataset == [] ==> csv == None
      ensures currentDataset != [] ==> csv == Some(Csv.CsvText(Query(allData, searchTerm, activeFilters)))
    {
      csv := Csv.ExportResults(currentDataset);
    }
  }

  // ---------------------------------------------------------------------------
  // Properties of the state

  /** With no term the options do not depend on the filters, and with a term
      a single-valued category that has a selection offers only selected
      values (unless the result is empty and the defaults are offered). */
  lemma OptionsFollowState(s: SearchFilterState, c: Category, x: string)
    requires s.Valid()
    ensures s.searchTerm == "" ==> s.AvailableOptions() == DeriveOptions(s.allData)
    ensures s.searchTerm != "" && !IsMultiValued(c) && |s.activeFilters.Get(c)| > 0
            && |s.currentDataset| > 0 && x in s.AvailableOptions().Get(c)
            ==> x in s.activeFilters.Get(c)
  {
    if s.searchTerm != "" && !IsMultiValued(c) && |s.activeFilters.Get(c)| > 0
       && |s.currentDataset| > 0 && x in s.AvailableOptions().Get(c) {
      FilteredContextOffersOnlySelected(s.allData, s.searchTerm, s.activeFilters, c, x);
    }
  }

  /** Every record in view is a record of the full dataset that passes the
      term and every active category, and the view keeps the page order. */
  lemma CurrentIsQuery(s: SearchFilterState, r: Record)
    requires s.Valid()
    ensures IsSubseq(s.currentDataset, s.allData)
    ensures r in s.currentDataset <==>
              r in s.allData && (s.searchTerm == "" || SearchHit(r, s.searchTerm))
              && forall c :: |s.activeFilters.Get(c)| > 0 ==> CategoryHit(c, s.activeFilters.Get(c), r)
  {
    QueryIsSubseq(s.allData, s.searchTerm, s.activeFilters);
    QueryKeeps(s.allData, s.searchTerm, s.activeFilters, r);
  }
}
