# Search and filter engine of the website inventory page

The inventory page lists the university's websites in one collapsible table per
department. Its script collects every table row into one dataset when the page
loads. It then lets the visitor narrow that dataset with a free-text search
and with five multi-select filters: departments, environments, Pope Tech,
active and CMS. The result is shown as a table with highlighted matches, and
it can be exported as CSV.

This project models that engine in Dafny:

- `Records` (records.dfy): the row record and the one-time collection from
  the department tables. A row needs at least eleven cells, and every value
  is trimmed.
- `QueryEngine` (query.dfy): the filter state and the query. The query is a
  case-insensitive substring search over every field, and then one stage per
  active category. Departments, Pope Tech and active match exactly.
  Environments and CMS match a case-insensitive substring. The staged method
  is proved equal to a single-predicate specification, `Query`.
- `Options` (options.dfy): the options each drop-down offers. They are drawn
  from the current context. Comma-separated categories are split into
  trimmed tokens, empty values are dropped, and the list is sorted with
  duplicates removed. An empty context gets fixed defaults.
- `Highlight` (highlight.dfy): `escapeRegExp` and the global,
  case-insensitive replacement that wraps each match in `<mark>…</mark>`.
  It is modelled as a left-to-right scan for non-overlapping matches.
- `Presentation` (presentation.dfy):
  - Boolean badges and option captions.
  - Chip colours and labels.
  - The results header, no-results message and count line.
  - The cells of each result row.
- `Csv` (csv.dfy): the CSV export text, with a parser that reads it back.
- `Engine` (engine.dfy): the page state (`allData`, `currentDataset`,
  `searchTerm`, `activeFilters`, `highlightEnabled`, and the count line
  as `resultsCount`) as a class. Each event
  handler is a method. The class invariant says the current dataset is
  always the query of the full dataset under the stored term and filters.
- `Scenarios` (scenarios.dfy): a two-record dataset and concrete results of
  queries and highlighting on it.
- `Strings` and `Basics` (strings.dfy, basics.dfy): the JavaScript string
  and array primitives the engine relies on. These are `toLowerCase`,
  `trim`, `includes`, `split`, `join`, sorting of distinct strings and
  `filter`.

Three behaviours of the code are easy to misread:

- The drop-down options under a search come from `currentDataset`
  (static/script.js:359). The filters have already acted on it, so they
  narrow the options as well, not only the search.
- The default options for the two boolean categories are `["true",
  "false"]` (static/script.js:362-370). They are offered in that order, not
  sorted.
- The count line ("Showing n of m results") is a separate element, and
  more than one path sets it. `displayResults` hides it when there is no
  term and no filter, and leaves it alone when the result is empty. A
  non-empty result makes it count the result (static/script.js:527-554).
  `updateFilterChips` makes it count the result whenever a filter is
  active, also for an empty result (static/script.js:788-809). So after a
  filter change that leaves nothing, "Showing 0 of m results" stands next
  to the no-results message. After a search that leaves nothing, the
  previous count line stays on screen. The model keeps this element as
  the field `resultsCount` of the page state and follows both paths.
  `updateResultsCount` hides the element when there is no term and no
  filter and then shows it again at once (static/script.js:234-240). No
  caller reaches it in that state, so the model does not include that
  case.

## Model

| member | source | states |
|---|---|---|
| Records.CollectRows | static/script.js:154-172 | The loop over the body rows of one table appends exactly `TableRecords` to the records already collected: one record per row of at least eleven cells, in row order. |
| Records.CollectRecords | static/script.js:146-179 | The loop over the drop-downs returns exactly the specification `Extract`: the records of every table in page order, drop-downs without a table skipped. |
| Records.TableRecordsAreLongRows | static/script.js:153-171 | A table contributes one record per row with at least 11 cells, in order, and shorter rows contribute nothing. |
| Records.ExtractedRecordsAreTrimmed | static/script.js:150-169 | Every field of a collected record is already trimmed. Its department is the trimmed heading of a table that has a body. |
| Strings.ContainsAt | static/script.js:483 | `includes` holds exactly when the term occurs at some index. |
| Strings.TrimBounds | static/script.js:150-169 | `trim` removes a maximal run of whitespace at each end and nothing else. |
| Strings.SortDistinct | static/script.js:373-395 | Deduplicating and then sorting gives a strictly ascending list with exactly the input's members. |
| Strings.AscendingUnique | static/script.js:373-395 | Two strictly ascending lists with the same members are equal, so the option list is determined by its set of values. |
| Strings.SplitJoin | static/script.js:374-381 | Splitting the comma-join of comma-free pieces gives back the pieces. |
| QueryEngine.Filters.With | static/script.js:462 | Assigning a category's selection changes that category and leaves the other four unchanged. |
| QueryEngine.HasActiveFilters | static/script.js:823-825 | True exactly when some category has a selection, and false exactly when the filters are the empty ones. |
| QueryEngine.StagesComposeToQuery | static/script.js:477-510 | Running the search stage and then the five category stages, in the code's order, equals the single-predicate query. |
| QueryEngine.ApplySearchAndFilters | static/script.js:477-513 | The staged filters return `Query(allData, term, filters)`. |
| QueryEngine.QueryIsSubseq | static/script.js:477-513 | The result keeps records of the full dataset in page order and is never longer than it. |
| QueryEngine.QueryKeeps | static/script.js:481-510 | A record is in the result if and only if it is in the dataset, matches the term in some field (or the term is empty), and satisfies every category that has a selection. |
| QueryEngine.QueryUnfiltered | static/script.js:246-255 | With no term and no filters the query returns the whole dataset, so clearing everything shows all data. |
| QueryEngine.QueryIdempotent | static/script.js:477-513 | Querying a query result again with the same term and filters changes nothing. |
| QueryEngine.QueryMono | static/script.js:477-513 | A stricter match predicate gives an order-preserving sub-result of a weaker one. |
| QueryEngine.SelectingNarrows | static/script.js:488-510 | Selecting values in an empty category can only remove records. |
| QueryEngine.WideningNeverRemoves | static/script.js:488-510 | Adding values to a non-empty selection can only add records, because the values within a category are alternatives. |
| QueryEngine.SearchingNarrows | static/script.js:481-485 | A search term can only remove records relative to the same filters without a term. |
| Options.OptionsSortedDistinctNonEmpty | static/script.js:357-398 | For a non-empty context, every category's options are strictly ascending, free of duplicates and contain no empty string. |
| Options.OptionsOfEmptyContext | static/script.js:362-370 | An empty context offers `["true", "false"]` for Pope Tech and active, and nothing for the other three categories. |
| Options.TokensMembers | static/script.js:374-381 | A token of a comma-separated field is exactly a non-empty trimmed comma-piece of it. |
| Options.SingleValuedOptions | static/script.js:373-385 | For departments, Pope Tech and active, an option is offered if and only if it is the non-empty value of some record in the context. |
| Options.MultiValuedOptions | static/script.js:374-395 | For environments and CMS, an option is offered if and only if it is a non-empty trimmed comma-piece of some record's field. |
| Options.FilteredContextOffersOnlySelected | static/script.js:357-359 | When the options come from a non-empty filtered result, a single-valued category with a selection offers only selected values. |
| Highlight.EscapedTermIsLiteral | static/script.js:38-48 | The escaped term, read as a pattern, denotes the term literally. Each special character is backslash-escaped, and nothing else is. |
| Highlight.ScanKeepsText | static/script.js:38-39 | Concatenating the scan's plain and marked pieces gives the text back. |
| Highlight.MarksMatchTerm | static/script.js:38-39 | Every marked piece equals the term ignoring ASCII case. |
| Highlight.ScanMissesNothing | static/script.js:38-39 | The replacement is global: no match of the term, ignoring case, starts at a character the scan left unmarked. |
| Highlight.MarkedIffOccurs | static/script.js:38-39 | Some piece is marked if and only if the term occurs in the text ignoring case. |
| Highlight.RenderLength | static/script.js:39 | Each mark adds exactly the 13 characters of `<mark></mark>`. |
| Highlight.HighlightChangesIffOccurs | static/script.js:36-40 | Highlighting changes the text if and only if the term is non-empty and occurs in it ignoring case. |
| Highlight.HighlightStripsBack | static/script.js:36-40 | For text without `<`, removing the mark tags from the highlighted text gives the original text. |
| Highlight.SearchHitIsMatch | static/script.js:38-39 | For a lower-case term, the search's lower-cased substring test and the highlighter's case-insensitive match agree at every index. |
| Presentation.TruthyIgnoresCaseAndSpace | static/script.js:58-59 | Whether a badge value reads as true does not depend on letter case or surrounding whitespace. |
| Presentation.TruthyTokens | static/script.js:59 | "true", "yes" and "1" are truthy. "false", "no", "0" and the empty string are not. |
| Presentation.BadgeTextIsLabel | static/script.js:56-70 | The badge shows "Yes" or "No" (possibly highlighted), and it is green exactly when it shows "Yes". |
| Presentation.FormatOptionTextChanges | static/script.js:423-428 | An option caption differs from the option only for "true" and "false" in the Pope Tech and active categories, and then it is "Yes" or "No" respectively. |
| Presentation.ChipColorsCases | static/script.js:830-839 | Each category has its own colour, and any other name gets grey. |
| Presentation.CategoryLabelCases | static/script.js:845-854 | Each category has its own label, distinct from its key, and any other name is its own label. |
| Presentation.ChipsAreSelections | static/script.js:781-807 | There is a chip for a value in a category if and only if that value is selected there. There are as many chips as selections, and some chip exists exactly when a filter is active. |
| Presentation.HeaderIdentifiesCriteria | static/script.js:541-575 | The header and the no-results message each tell apart search-only, filter-only and both. The header starts with "Search" exactly when there is a term. |
| Presentation.NatToStringRoundTrip | static/script.js:631 | The decimal rendering of a count uses digits only, has no leading zero and reads back as the same number. |
| Presentation.DisplayCases | static/script.js:527-575 | Nothing is shown without a term and filters. Otherwise a message is shown for an empty result, and a table with one row per record for a non-empty one. |
| Presentation.RowShowsRecord | static/script.js:618-702 | In a result row, the first cell reads back as the 1-based index. Each other cell, once its mark tags are stripped, is the record's field in column order, with Pope Tech and active shown as Yes/No badges. |
| Csv.ExportResults | static/script.js:983-1022 | There is no export for an empty result. Otherwise the loop builds the header line and one line per record, each ended by a newline. |
| Csv.CsvFieldsSkipId | static/script.js:1008-1020 | An exported row is the record's fields in column order without the id. |
| Csv.CsvLines | static/script.js:1005-1022 | When no field contains a newline, the export has exactly the header, one line per record and a final empty piece. |
| Csv.CsvRoundTrip | static/script.js:1005-1022 | When no field contains a double quote or a newline, parsing the export returns exactly the exported fields of every record. |
| Engine.WithoutKeepsOrder | static/script.js:862 | Removing a chip's value keeps the other values in order and drops exactly its occurrences. |
| Engine.SelectThenRemove | static/script.js:861-862 | Selecting one value in an empty category and then removing that value with removeFilter restores the filters. |
| Engine.SearchFilterState.constructor | static/script.js:118-179 | The initial state holds the collected records as both full and current dataset. It has no term, no filters, highlighting off and the count line hidden, and the invariant holds. |
| Engine.SearchFilterState.DisplayResults | static/script.js:527-554 | The count line is hidden without a term and a filter, left as it was for an empty result, and otherwise counts the current result. |
| Engine.SearchFilterState.UpdateFilterChips | static/script.js:781-809 | With a filter active the count line counts the current result, even an empty one. Otherwise it is left as it was. |
| Engine.SearchFilterState.HasActiveFilters | static/script.js:823-825 | True exactly when some category of the stored filters has a selection. |
| Engine.SearchFilterState.Apply | static/script.js:477-516 | The current dataset becomes the query of the full dataset, and term, filters and flag are unchanged. With criteria and an empty result the count line stays as it was. |
| Engine.SearchFilterState.ClearSearch | static/script.js:246-255 | The term becomes empty, the filters are kept and the invariant holds. Without filters the current dataset is all data and the count line is hidden. With filters that leave nothing the previous count line stays. |
| Engine.SearchFilterState.HandleSearchInput | static/script.js:209-219 | The stored term is the trimmed, lower-cased input, the filters are kept and the invariant holds. When a term or a filter is set and nothing is left, the previous count line stays. |
| Engine.SearchFilterState.ToggleHighlight | static/script.js:266-281 | Only the highlight flag flips. The results are redrawn under criteria, and the data and the count line stay the same. |
| Engine.SearchFilterState.HandleFilterChange | static/script.js:458-468 | The category's selection becomes the selected options, the others stay, and the invariant holds. With a filter active the count line counts the result, even an empty one. With no filter left and a term that matches nothing, the previous count line stays. |
| Engine.SearchFilterState.RemoveFilter | static/script.js:861-878 | Every occurrence of the value leaves its category, and the other categories and the term stay. The invariant holds. With a filter still active the count line counts the result, even an empty one. With no filter left and a term that matches nothing, the previous count line stays. |
| Engine.SearchFilterState.ShowFilterPanel | static/script.js:297-337 | The panel offers the available options, and the chips are redrawn at the end. With a filter active this rewrites the count line to count the current result. No other tracked state changes. |
| Engine.SearchFilterState.ClearAllFilters | static/script.js:885-903 | All filters are cleared, and the current dataset is the search-only query. Without a term the count line is hidden. With a term that matches nothing, the previous count line stays. |
| Engine.SearchFilterState.AvailableOptions | static/script.js:357-359 | Without a term the options come from the full dataset. With one they come from the query result. |
| Engine.SearchFilterState.View | static/script.js:527-575 | Nothing is shown exactly when there is no term and no filter, and then the count line is hidden. A shown table has one row per current record, and the count line counts current against all. |
| Engine.SearchFilterState.Export | static/script.js:983-1022 | The export button exports the CSV text of the current query result. Whenever the results table is shown, and with it the button, there is a text to export. The empty case is only the function's own guard, which the page does not reach. |
| Engine.OptionsFollowState | static/script.js:357-359 | Without a term the options ignore the filters. With a term, a single-valued category with a selection offers only selected values. |
| Engine.CurrentIsQuery | static/script.js:477-513 | In every valid state, a record is shown if and only if it is in the full dataset, matches the term and satisfies every active category. The shown records keep page order. |
| Scenarios.SearchApply | static/script.js:481-485 | Searching "apply" over the two sample sites keeps only the one titled "Apply". |
| Scenarios.CmsDrupal | static/script.js:506-510 | The CMS filter "Drupal" keeps both sites, including the one whose CMS is "WordPress, Drupal". |
| Scenarios.ActiveTrue | static/script.js:502-504 | The active filter "true" is an exact match and keeps only the active site. |
| Scenarios.NothingSelected | static/script.js:477-534 | With no term and no filters the query is the whole dataset and nothing is displayed. |
| Scenarios.HighlightProd | static/script.js:36-40 | Highlighting "prod" in an environments value "prod" gives `<mark>prod</mark>`. |

## Left out

- The 250 ms debounce of the search input and all event wiring are left out (static/script.js:21-29, 188-204). Each handler is modelled as one atomic transition.
- Building, styling and toggling the DOM is left out. This covers the department tables, the filter panel HTML, the panel open/close state (opening it is modelled only by `ShowFilterPanel`, for its effect on the count line) and the sync of the `<select>` elements (`updateFilterOptions`, `restoreFilterSelections`). Only the values they show are modelled.
- The export modal, the file name built from it and the date, and the Blob download are left out. They are browser I/O.
- The page's other scripts (the modals, the data-moving `fetch` requests) and the server in app.py are not part of this model.
- Letter case is folded for ASCII only. JavaScript's `toLowerCase` also folds other Unicode letters.
- Sorting compares UTF-16 code units in JavaScript. The model compares characters, which is the same order within the Basic Multilingual Plane.
- The colour and label lookups are plain objects in the code, so a name such as `toString` would find an inherited member. The model treats every non-category name as unknown.
- Engine.SelectThenRemove: proved about removeFilter itself, not about clicking the chip. The chip's button passes the value into an inline `onclick` handler without escaping it (static/script.js:802). A value containing `'`, `"` or `\` therefore cannot be removed through its chip, and the model does not capture that.
- Engine.SearchFilterState.RemoveFilter: models the call with the value as given, not the chip's inline handler, which breaks for values containing `'`, `"` or `\` (static/script.js:802).
- Presentation.RowShowsRecord: holds only for fields without `<`. With `<` in a field, a stripped cell cannot be told apart from markup, because the code does not escape HTML.
- Presentation.RowShowsRecord: the title attributes and the link `href` of the URL cell are not modelled. The model gives each cell's inner HTML, and for the URL cell the link text.
- Highlight.HighlightStripsBack: holds only for text without `<`, for the same reason.
- Csv.CsvRoundTrip: holds only for fields without `"` or a newline, because the export does not escape quotes.
- The "End of matching results" line below the result table is left out. It is fixed text.
- The count line starts out hidden in the model. Its initial state comes from the page markup, which is not part of this model.
- Console logging is left out.
