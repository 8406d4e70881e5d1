/** The presentation helpers of the engine: boolean badges, the display text
    of filter options, the chip colour and label maps with their fallbacks,
    the filter chips, and the choice of what the results area shows (nothing,
    a "no results" message, or a header, a count line and one row of cells
    per record). */
module Presentation {
  import opened Strings
  import opened Records
  import opened QueryEngine
  import opened Highlight

  // ---------------------------------------------------------------------------
  // createBooleanBadge

  /** The normalised token: lower-cased, then trimmed. */
  function NormalizedToken(value: string): string
  {
    Trim(Lower(value))
  }

  predicate IsTruthy(value: string)
  {
    var v := NormalizedToken(value);
    v == "true" || v == "yes" || v == "1"
  }

  function BadgeLabel(value: string): (r: string)
    ensures r == "Yes" || r == "No"
  {
    if IsTruthy(value) then "Yes" else "No"
  }

  function BadgeClass(value: string): string
  {
    if IsTruthy(value) then "boolean-badge badge-green" else "boolean-badge badge-red"
  }

  /** The badge's content: the label, highlighted when asked to and a term is
      set. */
  function BadgeText(value: string, shouldHighlight: bool, term: string): string
  {
    if shouldHighlight && term != "" then HighlightMatches(BadgeLabel(value), term)
    else BadgeLabel(value)
  }

  /** Lower-casing leaves whitespace alone, so it commutes with trimming. */
  lemma {:induction false} LowerTrimStart(s: string)
    ensures Lower(TrimStart(s)) == TrimStart(Lower(s))
    decreases |s|
  {
    if |s| > 0 {
      assert Lower(s)[0] == LowerChar(s[0]);
      assert IsSpace(LowerChar(s[0])) == IsSpace(s[0]);
      assert Lower(s)[1..] == Lower(s[1..]);
      if IsSpace(s[0]) { LowerTrimStart(s[1..]); }
    }
  }

  lemma {:induction false} LowerTrimEnd(s: string)
    ensures Lower(TrimEnd(s)) == TrimEnd(Lower(s))
    decreases |s|
  {
    if |s| > 0 {
      var n := |s| - 1;
      assert Lower(s)[n] == LowerChar(s[n]);
      assert IsSpace(LowerChar(s[n])) == IsSpace(s[n]);
      assert Lower(s)[..n] == Lower(s[..n]);
      if IsSpace(s[n]) { LowerTrimEnd(s[..n]); }
    }
  }

  lemma LowerTrim(s: string)
    ensures Lower(Trim(s)) == Trim(Lower(s))
  {
    LowerTrimStart(s);
    LowerTrimEnd(TrimStart(s));
  }

  /** Truthiness ignores case and surrounding whitespace: a value, its
      lower-cased form and its trimmed form all read the same. */
  lemma TruthyIgnoresCaseAndSpace(value: string)
    ensures IsTruthy(Lower(value)) == IsTruthy(value)
    ensures IsTruthy(Trim(value)) == IsTruthy(value)
  {
    LowerIsLower(value);
    LowerTrim(value);
    TrimIdempotent(Lower(value));
  }

  /** The three accepted spellings are true; "false", "no", "0" and the
      empty value are not. TruthyIgnoresCaseAndSpace extends this to any
      letter case and any padding. */
  lemma TruthyTokens()
    ensures IsTruthy("true") && IsTruthy("yes") && IsTruthy("1")
    ensures !IsTruthy("false") && !IsTruthy("no") && !IsTruthy("0") && !IsTruthy("")
  {
    TruthySpellings();
    FalsySpellings();
  }

  lemma TruthySpellings()
    ensures NormalizedToken("true") == "true"
    ensures NormalizedToken("yes") == "yes"
    ensures NormalizedToken("1") == "1"
  {
    TokenAsWritten("true");
    TokenAsWritten("yes");
    TokenAsWritten("1");
  }

  lemma FalsySpellings()
    ensures NormalizedToken("false") == "false"
    ensures NormalizedToken("no") == "no"
    ensures NormalizedToken("0") == "0"
    ensures NormalizedToken("") == ""
  {
    TokenAsWritten("false");
    TokenAsWritten("no");
    TokenAsWritten("0");
    TokenAsWritten("");
  }

  /** A lower-case value without padding is its own normalised token. */
  lemma TokenAsWritten(v: string)
    requires NoUpper(v)
    requires |v| > 0 ==> !IsSpace(v[0]) && !IsSpace(v[|v| - 1])
    ensures NormalizedToken(v) == v
  {
    assert Lower(v) == v;
  }

  /** Highlighting never changes what the badge says: with its marks deleted
      the badge text is the label, and the label agrees with the colour. */
  lemma BadgeTextIsLabel(value: string, shouldHighlight: bool, term: string)
    ensures StripMarks(BadgeText(value, shouldHighlight, term)) == BadgeLabel(value)
    ensures BadgeLabel(value) == "Yes" <==> BadgeClass(value) == "boolean-badge badge-green"
  {
    var text := BadgeLabel(value);
    assert '<' !in text;
    HighlightStripsBack(text, term);
    if !(shouldHighlight && term != "") {
      StripPlainPrefix(text, "");
      assert text + "" == text;
    }
  }

  // ---------------------------------------------------------------------------
  // formatOptionText

  function FormatOptionText(category: string, option: string): string
  {
    if category == "popetech" || category == "active" then
      if option == "true" then "Yes" else if option == "false" then "No" else option
    else option
  }

  /** Only "true" and "false" of the two boolean categories are renamed; every
      other option of every category is shown as it is. */
  lemma FormatOptionTextChanges(category: string, option: string)
    ensures FormatOptionText(category, option) != option <==>
              (category == CategoryName(PopeTech) || category == CategoryName(Active))
              && (option == "true" || option == "false")
    ensures FormatOptionText(category, option) != option ==>
              (FormatOptionText(category, option) == "Yes" <==> option == "true")
  {
  }

  // ---------------------------------------------------------------------------
  // getChipColor and getCategoryLabel

  const ChipColors: map<string, string> := map[
    "departments" := "chip-red", "environments" := "chip-blue", "popetech" := "chip-green",
    "active" := "chip-yellow", "cms" := "chip-purple"]

  const CategoryLabels: map<string, string> := map[
    "departments" := "Dept", "environments" := "Env", "popetech" := "Pope",
    "active" := "Active", "cms" := "CMS"]

  function ChipColor(category: string): string
  {
    if category in ChipColors then ChipColors[category] else "chip-gray"
  }

  function CategoryLabel(category: string): string
  {
    if category in CategoryLabels then CategoryLabels[category]
    else category
  }

  predicate IsCategoryName(name: string)
  {
    exists c :: CategoryName(c) == name
  }

  /** The five categories get five different colours, none of them the
      fallback, and every other name gets the fallback. */
  lemma ChipColorsCases(name: string, c: Category, d: Category)
    ensures ChipColor(name) == "chip-gray" <==> !IsCategoryName(name)
    ensures ChipColor(CategoryName(c)) == ChipColor(CategoryName(d)) <==> c == d
  {
    if name in ChipColors {
      var e := if name == "departments" then Departments else if name == "environments" then Environments
               else if name == "popetech" then PopeTech else if name == "active" then Active else Cms;
      assert CategoryName(e) == name;
    }
  }

  /** The five categories get five different labels, none of them the
      category's own name, and any other name is its own label. */
  lemma CategoryLabelCases(name: string, c: Category, d: Category)
    ensures !IsCategoryName(name) ==> CategoryLabel(name) == name
    ensures CategoryLabel(CategoryName(c)) != CategoryName(c)
    ensures CategoryLabel(CategoryName(c)) == CategoryLabel(CategoryName(d)) <==> c == d
  {
    if name in CategoryLabels {
      var e := if name == "departments" then Departments else if name == "environments" then Environments
               else if name == "popetech" then PopeTech else if name == "active" then Active else Cms;
      assert CategoryName(e) == name;
    }
  }

  // ---------------------------------------------------------------------------
  // updateFilterChips: one chip per selected value, category by category

  datatype Chip = Chip(category: string, value: string, color: string, caption: string, text: string)

  function MakeChip(category: string, value: string): Chip
  {
    Chip(category, value, ChipColor(category), CategoryLabel(category), FormatOptionText(category, value))
  }

  function CategoryChips(c: Category, values: seq<string>): (r: seq<Chip>)
    ensures |r| == |values|
    ensures forall k :: 0 <= k < |r| ==> r[k] == MakeChip(CategoryName(c), values[k])
  {
    seq(|values|, k requires 0 <= k < |values| => MakeChip(CategoryName(c), values[k]))
  }

  function Chips(f: Filters): seq<Chip>
  {
    CategoryChips(Departments, f.departments) + CategoryChips(Environments, f.environments)
    + CategoryChips(PopeTech, f.popetech) + CategoryChips(Active, f.active)
    + CategoryChips(Cms, f.cms)
  }

  /** Some chip of the list carries this category and this value. */
  predicate HasChip(chips: seq<Chip>, category: string, value: string)
  {
    exists k :: 0 <= k < |chips| && chips[k].category == category && chips[k].value == value
  }

  lemma HasChipAppend(a: seq<Chip>, b: seq<Chip>, category: string, value: string)
    ensures HasChip(a + b, category, value) <==> HasChip(a, category, value) || HasChip(b, category, value)
  {
    if HasChip(a + b, category, value) {
      var k :| 0 <= k < |a + b| && (a + b)[k].category == category && (a + b)[k].value == value;
      if k < |a| {
        assert a[k] == (a + b)[k];
      } else {
        assert b[k - |a|] == (a + b)[k];
      }
    }
    if HasChip(a, category, value) {
      var k :| 0 <= k < |a| && a[k].category == category && a[k].value == value;
      assert (a + b)[k] == a[k];
    }
    if HasChip(b, category, value) {
      var k :| 0 <= k < |b| && b[k].category == category && b[k].value == value;
      assert (a + b)[|a| + k] == b[k];
    }
  }

  lemma CategoryChipsHas(c: Category, values: seq<string>, category: string, value: string)
    ensures HasChip(CategoryChips(c, values), category, value) <==>
              category == CategoryName(c) && value in values
  {
    var r := CategoryChips(c, values);
    if category == CategoryName(c) && value in values {
      var j :| 0 <= j < |values| && values[j] == value;
      assert r[j].category == category && r[j].value == value;
    }
  }

  /** There is a chip for every selected value and for nothing else, and chips
      are shown exactly when some filter is active. */
  lemma ChipsAreSelections(f: Filters, c: Category, v: string)
    ensures (exists k :: 0 <= k < |Chips(f)| && Chips(f)[k].category == CategoryName(c)
                                              && Chips(f)[k].value == v) <==> v in f.Get(c)
    ensures |Chips(f)| == |f.departments| + |f.environments| + |f.popetech| + |f.active| + |f.cms|
    ensures |Chips(f)| > 0 <==> HasActiveFilters(f)
  {
    var name := CategoryName(c);
    var a0 := CategoryChips(Departments, f.departments);
    var a1 := CategoryChips(Environments, f.environments);
    var a2 := CategoryChips(PopeTech, f.popetech);
    var a3 := CategoryChips(Active, f.active);
    var a4 := CategoryChips(Cms, f.cms);
    assert Chips(f) == a0 + a1 + a2 + a3 + a4;
    HasChipAppend(a0 + a1 + a2 + a3, a4, name, v);
    HasChipAppend(a0 + a1 + a2, a3, name, v);
    HasChipAppend(a0 + a1, a2, name, v);
    HasChipAppend(a0, a1, name, v);
    CategoryChipsHas(Departments, f.departments, name, v);
    CategoryChipsHas(Environments, f.environments, name, v);
    CategoryChipsHas(PopeTech, f.popetech, name, v);
    CategoryChipsHas(Active, f.active, name, v);
    CategoryChipsHas(Cms, f.cms, name, v);
    forall d ensures CategoryName(d) == name <==> d == c { CategoryNamesDistinct(d, c); }
    assert HasChip(Chips(f), name, v) <==> v in f.Get(c);
  }

  // ---------------------------------------------------------------------------
  // displayResults and updateResultsCount

  function ResultsHeader(hasSearch: bool, hasFilters: bool): string
  {
    if hasSearch && hasFilters then "Search & Filter Results"
    else if hasSearch then "Search Results"
    else "Filter Results"
  }

  function NoResultsMessage(hasSearch: bool, hasFilters: bool): string
  {
    if hasSearch && hasFilters then "No results matching search and filter criteria"
    else if hasSearch then "No results matching search criteria"
    else "No results matching filter criteria"
  }

  /** The header and the message tell the three combinations of criteria
      apart, and the header starts with "Search" exactly when a term is set. */
  lemma HeaderIdentifiesCriteria(search1: bool, filters1: bool, search2: bool, filters2: bool)
    requires search1 || filters1
    requires search2 || filters2
    ensures ResultsHeader(search1, filters1) == ResultsHeader(search2, filters2) <==>
              search1 == search2 && filters1 == filters2
    ensures NoResultsMessage(search1, filters1) == NoResultsMessage(search2, filters2) <==>
              search1 == search2 && filters1 == filters2
    ensures StartsWith(ResultsHeader(search1, filters1), "Search") <==> search1
  {
    var h := ResultsHeader(search1, filters1);
    if search1 {
      assert h[..6] == "Search";
    } else {
      assert h[0] == 'F';
    }
    var h1, h2 := NoResultsMessage(search1, filters1), NoResultsMessage(search2, filters2);
    if search1 != search2 || filters1 != filters2 {
      assert |h1| != |h2| || h1[20] != h2[20];
    }
  }

  /** The decimal digits of a number, as a template literal prints it. */
  function DigitChar(d: nat): char
    requires d < 10
  {
    ('0' as int + d) as char
  }

  function NatToString(n: nat): (r: string)
    ensures |r| > 0
    decreases n
  {
    if n < 10 then [DigitChar(n)] else NatToString(n / 10) + [DigitChar(n % 10)]
  }

  predicate IsDigit(c: char) { '0' <= c <= '9' }

  function DigitValue(c: char): nat
  {
    if IsDigit(c) then c as int - '0' as int else 0
  }

  /** Reads back a string of decimal digits. */
  function ParseNat(s: string): nat
    decreases |s|
  {
    if |s| == 0 then 0 else ParseNat(s[..|s| - 1]) * 10 + DigitValue(s[|s| - 1])
  }

  /** The printed number is all digits, has no leading zero and reads back as
      the number. */
  lemma {:induction false} NatToStringRoundTrip(n: nat)
    ensures forall i :: 0 <= i < |NatToString(n)| ==> IsDigit(NatToString(n)[i])
    ensures NatToString(n)[0] != '0' || n == 0
    ensures ParseNat(NatToString(n)) == n
    decreases n
  {
    if n >= 10 {
      NatToStringRoundTrip(n / 10);
      var s := NatToString(n);
      assert s[..|s| - 1] == NatToString(n / 10);
    }
  }

  /** The count line of updateResultsCount. */
  function CountLine(shown: nat, total: nat, term: string): string
  {
    "Showing " + NatToString(shown) + " of " + NatToString(total) + " results"
    + (if term != "" then " matching \"" + term + "\"" else "")
  }

  /** What the results area shows. The count line is a separate element,
      kept in the page state. */
  datatype View =
    | Hidden
    | NoResults(message: string)
    | Results(header: string, rows: seq<seq<string>>)

  /** The content of one text cell: highlighted when highlighting is on and a
      term is set. */
  function CellText(value: string, highlight: bool, term: string): string
  {
    if highlight then HighlightMatches(value, term) else value
  }

  /** One row of the results table: its number, eight text cells and the two
      badges. */
  function RowCells(index: nat, r: Record, highlight: bool, term: string): (cells: seq<string>)
    ensures |cells| == 12
  {
    [NatToString(index + 1),
     CellText(r.department, highlight, term), CellText(r.title, highlight, term),
     CellText(r.environments, highlight, term), CellText(r.aliases, highlight, term),
     CellText(r.owners, highlight, term), CellText(r.primaryUrl, highlight, term),
     CellText(r.notes, highlight, term), BadgeText(r.popeTech, highlight, term),
     CellText(r.errors, highlight, term), BadgeText(r.active, highlight, term),
     CellText(r.cms, highlight, term)]
  }

  function ResultRows(data: seq<Record>, highlight: bool, term: string): (rows: seq<seq<string>>)
    ensures |rows| == |data|
    ensures forall k :: 0 <= k < |data| ==> rows[k] == RowCells(k, data[k], highlight, term)
  {
    seq(|data|, k requires 0 <= k < |data| => RowCells(k, data[k], highlight, term))
  }

  /** displayResults, given the state it reads. */
  function Display(current: seq<Record>, term: string, f: Filters, highlightEnabled: bool): View
  {
    var hasSearch := |term| > 0;
    var hasFilters := HasActiveFilters(f);
    if !hasSearch && !hasFilters then Hidden
    else if |current| == 0 then NoResults(NoResultsMessage(hasSearch, hasFilters))
    else Results(ResultsHeader(hasSearch, hasFilters), ResultRows(current, highlightEnabled && hasSearch, term))
  }

  /** Which view is shown: hidden without criteria, the message when nothing
      is left, otherwise one row per current record. */
  lemma DisplayCases(current: seq<Record>, term: string, f: Filters, hl: bool)
    ensures Display(current, term, f, hl).Hidden? <==> term == "" && f == NoFilters
    ensures Display(current, term, f, hl).NoResults? <==>
              (term != "" || f != NoFilters) && current == []
    ensures Display(current, term, f, hl).Results? ==>
              |Display(current, term, f, hl).rows| == |current| > 0
  {
  }

  /** With its marks deleted, a text cell is the field it shows. */
  lemma CellShowsValue(value: string, highlight: bool, term: string)
    requires '<' !in value
    ensures StripMarks(CellText(value, highlight, term)) == value
  {
    HighlightStripsBack(value, term);
    StripPlainPrefix(value, "");
    assert value + "" == value;
  }

  /** Each row shows its record: its number, and, with marks deleted, every
      field but the id in table order (for fields without `<`), the two
      boolean fields as their badge labels. */
  lemma RowShowsRecord(index: nat, r: Record, highlight: bool, term: string)
    requires forall k :: 0 <= k < 12 ==> '<' !in Fields(r)[k]
    ensures ParseNat(RowCells(index, r, highlight, term)[0]) == index + 1
    ensures forall k :: 1 <= k < 12 && k != 8 && k != 10 ==>
              StripMarks(RowCells(index, r, highlight, term)[k]) == Fields(r)[if k == 1 then 0 else k]
    ensures StripMarks(RowCells(index, r, highlight, term)[8]) == BadgeLabel(r.popeTech)
    ensures StripMarks(RowCells(index, r, highlight, term)[10]) == BadgeLabel(r.active)
  {
    var cells := RowCells(index, r, highlight, term);
    NatToStringRoundTrip(index + 1);
    assert cells[0] == NatToString(index + 1);
    var fs := Fields(r);
    forall k | 1 <= k < 12 && k != 8 && k != 10
      ensures StripMarks(cells[k]) == fs[if k == 1 then 0 else k]
    {
      var v := fs[if k == 1 then 0 else k];
      assert cells[k] == CellText(v, highlight, term);
      CellShowsValue(v, highlight, term);
    }
    BadgeTextIsLabel(r.popeTech, highlight, term);
    BadgeTextIsLabel(r.active, highlight, term);
  }
}
