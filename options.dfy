/** The selectable values offered per filter category
    (getAvailableFilterOptions): distinct, non-empty and sorted, taken from the
    records of the context; the comma-joined categories are split into their
    trimmed parts first. */
module Options {
  import opened Strings
  import opened Records
  import opened QueryEngine

  /** The options offered per category have the shape of the selections:
      one list of values per category. */
  type FilterOptions = Filters

  /** What an empty context offers: the two boolean tokens, in this order, for
      the two boolean categories and nothing for the others. */
  const DefaultOptions: FilterOptions :=
    Filters([], [], ["true", "false"], ["true", "false"], [])

  /** The record field a category selects on. */
  function CategoryField(c: Category, r: Record): string
  {
    match c
    case Departments => r.department
    case Environments => r.environments
    case PopeTech => r.popeTech
    case Active => r.active
    case Cms => r.cms
  }

  /** environments and cms hold comma-joined lists. */
  predicate IsMultiValued(c: Category) { c == Environments || c == Cms }

  /** `.filter(Boolean)` on strings: drops the empty ones. */
  function NonEmpty(xs: seq<string>): (r: seq<string>)
    ensures "" !in r
    ensures forall x :: x in r <==> x in xs && x != ""
    decreases |xs|
  {
    if |xs| == 0 then []
    else
      assert forall x :: x in xs <==> x == xs[0] || x in xs[1..];
      (if xs[0] != "" then [xs[0]] else []) + NonEmpty(xs[1..])
  }

  function TrimAll(xs: seq<string>): (r: seq<string>)
    ensures |r| == |xs| && forall k :: 0 <= k < |xs| ==> r[k] == Trim(xs[k])
  {
    seq(|xs|, k requires 0 <= k < |xs| => Trim(xs[k]))
  }

  /** `field.split(",").map(trim).filter(Boolean)` */
  function Tokens(field: string): seq<string>
  {
    NonEmpty(TrimAll(Split(field, ',')))
  }

  /** The category's values over the context, one per record. */
  function Values(ctx: seq<Record>, c: Category): seq<string>
    decreases |ctx|
  {
    if |ctx| == 0 then [] else [CategoryField(c, ctx[0])] + Values(ctx[1..], c)
  }

  /** The flatMap of the tokens of every record of the context. */
  function AllTokens(ctx: seq<Record>, c: Category): seq<string>
    decreases |ctx|
  {
    if |ctx| == 0 then [] else Tokens(CategoryField(c, ctx[0])) + AllTokens(ctx[1..], c)
  }

  function OptionsFor(ctx: seq<Record>, c: Category): seq<string>
  {
    if IsMultiValued(c) then SortDistinct(AllTokens(ctx, c))
    else SortDistinct(NonEmpty(Values(ctx, c)))
  }

  /** getAvailableFilterOptions over a given context. */
  function DeriveOptions(ctx: seq<Record>): FilterOptions
  {
    if |ctx| == 0 then DefaultOptions
    else Filters(
      OptionsFor(ctx, Departments),
      OptionsFor(ctx, Environments),
      OptionsFor(ctx, PopeTech),
      OptionsFor(ctx, Active),
      OptionsFor(ctx, Cms))
  }

  lemma DeriveOptionsGet(ctx: seq<Record>, c: Category)
    requires |ctx| > 0
    ensures DeriveOptions(ctx).Get(c) == OptionsFor(ctx, c)
  {
  }

  // ---------------------------------------------------------------------------
  // What the options promise

  /** Over a non-empty context every category's list is strictly ascending
      (hence free of duplicates) and holds no empty string. */
  lemma OptionsSortedDistinctNonEmpty(ctx: seq<Record>, c: Category)
    requires |ctx| > 0
    ensures StrictlyAscending(DeriveOptions(ctx).Get(c))
    ensures "" !in DeriveOptions(ctx).Get(c)
    ensures forall i, j :: 0 <= i < j < |DeriveOptions(ctx).Get(c)| ==>
              DeriveOptions(ctx).Get(c)[i] != DeriveOptions(ctx).Get(c)[j]
  {
    DeriveOptionsGet(ctx, c);
    var o := OptionsFor(ctx, c);
    forall i, j | 0 <= i < j < |o| ensures o[i] != o[j] { AscendingDistinct(o, i, j); }
    if IsMultiValued(c) {
      TokensNonEmpty(ctx, c);
    }
  }

  lemma {:induction false} TokensNonEmpty(ctx: seq<Record>, c: Category)
    ensures "" !in AllTokens(ctx, c)
    decreases |ctx|
  {
    if |ctx| > 0 { TokensNonEmpty(ctx[1..], c); }
  }

  /** An empty context offers the default lists. */
  lemma OptionsOfEmptyContext()
    ensures DeriveOptions([]).popetech == ["true", "false"]
    ensures DeriveOptions([]).active == ["true", "false"]
    ensures DeriveOptions([]).departments == [] && DeriveOptions([]).environments == []
    ensures DeriveOptions([]).cms == []
  {
  }

  lemma {:induction false} ValuesMembers(ctx: seq<Record>, c: Category, x: string)
    ensures x in Values(ctx, c) <==> exists r :: r in ctx && CategoryField(c, r) == x
    decreases |ctx|
  {
    if |ctx| > 0 {
      ValuesMembers(ctx[1..], c, x);
      assert forall r :: r in ctx <==> r == ctx[0] || r in ctx[1..];
    }
  }

  lemma {:induction false} AllTokensMembers(ctx: seq<Record>, c: Category, x: string)
    ensures x in AllTokens(ctx, c) <==> exists r :: r in ctx && x in Tokens(CategoryField(c, r))
    decreases |ctx|
  {
    if |ctx| > 0 {
      AllTokensMembers(ctx[1..], c, x);
      assert forall r :: r in ctx <==> r == ctx[0] || r in ctx[1..];
    }
  }

  /** A token is a trimmed, non-empty comma-separated part of the field. */
  lemma TokensMembers(field: string, parts: seq<string>, x: string)
    requires parts == Split(field, ',')
    ensures x in Tokens(field) <==> x != "" && exists k :: 0 <= k < |parts| && Trim(parts[k]) == x
  {
    TrimmedPartsMembers(parts, x);
  }

  lemma TrimmedPartsMembers(parts: seq<string>, x: string)
    ensures x in NonEmpty(TrimAll(parts)) <==> x != "" && exists k :: 0 <= k < |parts| && Trim(parts[k]) == x
  {
    var trimmed := TrimAll(parts);
    if x in trimmed {
      var k :| 0 <= k < |trimmed| && trimmed[k] == x;
      assert Trim(parts[k]) == x;
    }
    if exists k :: 0 <= k < |parts| && Trim(parts[k]) == x {
      var k :| 0 <= k < |parts| && Trim(parts[k]) == x;
      assert trimmed[k] == x;
    }
  }

  /** For departments, popetech and active: an option is exactly a non-empty
      value that some record of the context holds. */
  lemma SingleValuedOptions(ctx: seq<Record>, c: Category, x: string)
    requires |ctx| > 0 && !IsMultiValued(c)
    ensures x in DeriveOptions(ctx).Get(c) <==> x != "" && exists r :: r in ctx && CategoryField(c, r) == x
  {
    DeriveOptionsGet(ctx, c);
    ValuesMembers(ctx, c, x);
  }

  /** For environments and cms: an option is exactly a trimmed, non-empty part
      of the comma-joined field of some record of the context. */
  lemma MultiValuedOptions(ctx: seq<Record>, c: Category, x: string)
    requires |ctx| > 0 && IsMultiValued(c)
    ensures x in DeriveOptions(ctx).Get(c) <==>
              exists r :: r in ctx && x in Tokens(CategoryField(c, r))
  {
    DeriveOptionsGet(ctx, c);
    AllTokensMembers(ctx, c, x);
  }

  /** With a search term set the context is the current result, on which the
      filters have already acted: a single-valued category with a selection
      then offers only values that are selected in it (unless the result is
      empty and the defaults are offered). */
  lemma FilteredContextOffersOnlySelected(d: seq<Record>, term: string, f: Filters, c: Category, x: string)
    requires !IsMultiValued(c) && |f.Get(c)| > 0
    ensures |Query(d, term, f)| > 0 && x in DeriveOptions(Query(d, term, f)).Get(c) ==> x in f.Get(c)
  {
    var ctx := Query(d, term, f);
    if |ctx| > 0 && x in DeriveOptions(ctx).Get(c) {
      SingleValuedOptions(ctx, c, x);
      var r :| r in ctx && CategoryField(c, r) == x;
      QueryKeeps(d, term, f, r);
    }
  }
}
