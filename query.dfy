/** The filter state and the query engine (applySearchAndFilters): a search
    stage followed by one stage per filter category, each stage keeping the
    records of the previous one that pass it. */
module QueryEngine {
  import opened Basics
  import opened Strings
  import opened Records

  /** The five filter categories, in the order of the keys of window.activeFilters. */
  datatype Category = Departments | Environments | PopeTech | Active | Cms

  const CategoryOrder: seq<Category> := [Departments, Environments, PopeTech, Active, Cms]

  /** The key under which a category is stored and named in the page. */
  function CategoryName(c: Category): string
  {
    match c
    case Departments => "departments"
    case Environments => "environments"
    case PopeTech => "popetech"
    case Active => "active"
    case Cms => "cms"
  }

  lemma CategoryNamesDistinct(c: Category, d: Category)
    ensures CategoryName(c) == CategoryName(d) <==> c == d
  {
  }

  /** window.activeFilters: the selected values of each category. The same
      shape holds the options offered per category. */
  datatype Filters = Filters(
    departments: seq<string>,
    environments: seq<string>,
    popetech: seq<string>,
    active: seq<string>,
    cms: seq<string>)
  {
    function Get(c: Category): seq<string>
    {
      match c
      case Departments => departments
      case Environments => environments
      case PopeTech => popetech
      case Active => active
      case Cms => cms
    }

    /** The state after `activeFilters[c] = vs`. */
    function With(c: Category, vs: seq<string>): (g: Filters)
      ensures g.Get(c) == vs
      ensures forall d :: d != c ==> g.Get(d) == Get(d)
    {
      match c
      case Departments => this.(departments := vs)
      case Environments => this.(environments := vs)
      case PopeTech => this.(popetech := vs)
      case Active => this.(active := vs)
      case Cms => this.(cms := vs)
    }
  }

  /** The value clearAllFilters installs, and the initial one. */
  const NoFilters: Filters := Filters([], [], [], [], [])

  /** hasActiveFilters: some category has a selected value. */
  function HasActiveFilters(f: Filters): (b: bool)
    ensures b <==> exists c :: |f.Get(c)| > 0
    ensures !b <==> f == NoFilters
  {
    assert (|f.Get(Departments)| > 0 || |f.Get(Environments)| > 0 || |f.Get(PopeTech)| > 0
            || |f.Get(Active)| > 0 || |f.Get(Cms)| > 0) ==> exists c :: |f.Get(c)| > 0;
    |f.departments| > 0 || |f.environments| > 0 || |f.popetech| > 0 || |f.active| > 0 || |f.cms| > 0
  }

  // ---------------------------------------------------------------------------
  // The predicates of the stages

  /** Some field of the record, lower-cased, includes the term. */
  predicate SearchHit(r: Record, term: string)
  {
    exists k :: 0 <= k < |Fields(r)| && Contains(Lower(Fields(r)[k]), term)
  }

  /** Some selected value, lower-cased, is included in the lower-cased field. */
  predicate SomeValueIncluded(values: seq<string>, field: string)
  {
    exists v :: v in values && Contains(Lower(field), Lower(v))
  }

  /** The stage test of one category: exact membership for the single-valued
      fields, substring inclusion for the comma-joined ones. */
  predicate CategoryHit(c: Category, values: seq<string>, r: Record)
  {
    match c
    case Departments => r.department in values
    case Environments => SomeValueIncluded(values, r.environments)
    case PopeTech => r.popeTech in values
    case Active => r.active in values
    case Cms => SomeValueIncluded(values, r.cms)
  }

  /** A category with no selection lets every record through. */
  predicate CategoryPasses(f: Filters, c: Category, r: Record)
  {
    |f.Get(c)| == 0 || CategoryHit(c, f.Get(c), r)
  }

  /** The query as one condition: the search, and every category. */
  predicate Matches(r: Record, term: string, f: Filters)
  {
    && (term == "" || SearchHit(r, term))
    && CategoryPasses(f, Departments, r)
    && CategoryPasses(f, Environments, r)
    && CategoryPasses(f, PopeTech, r)
    && CategoryPasses(f, Active, r)
    && CategoryPasses(f, Cms, r)
  }

  lemma MatchesAllCategories(r: Record, term: string, f: Filters)
    ensures Matches(r, term, f) <==> (term == "" || SearchHit(r, term)) && forall c :: CategoryPasses(f, c, r)
  {
    if Matches(r, term, f) {
      forall c ensures CategoryPasses(f, c, r) { match c
        case Departments => case Environments => case PopeTech => case Active => case Cms =>
      }
    }
  }

  /** The result the engine stores in window.currentDataset: the records of
      the dataset that match, in dataset order. */
  function Query(d: seq<Record>, term: string, f: Filters): seq<Record>
  {
    Filter(d, r => Matches(r, term, f))
  }

  lemma {:induction false} QueryIsFilter(d: seq<Record>, term: string, f: Filters, p: Record -> bool)
    requires forall r :: p(r) == Matches(r, term, f)
    ensures Query(d, term, f) == Filter(d, p)
    decreases |d|
  {
    if |d| > 0 { QueryIsFilter(d[1..], term, f, p); }
  }

  // ---------------------------------------------------------------------------
  // The stages, applied one after another as applySearchAndFilters does

  datatype Stage = SearchStage | CategoryStage(c: Category)

  const StageOrder: seq<Stage> :=
    [SearchStage, CategoryStage(Departments), CategoryStage(Environments),
     CategoryStage(PopeTech), CategoryStage(Active), CategoryStage(Cms)]

  /** Whether the stage runs at all: a search term, or a selection. */
  predicate StageActive(st: Stage, term: string, f: Filters)
  {
    match st
    case SearchStage => term != ""
    case CategoryStage(c) => |f.Get(c)| > 0
  }

  predicate StageHolds(st: Stage, term: string, f: Filters, r: Record)
  {
    match st
    case SearchStage => SearchHit(r, term)
    case CategoryStage(c) => CategoryHit(c, f.Get(c), r)
  }

  /** One `workingData.filter(...)` call. */
  function KeepIf(w: seq<Record>, st: Stage, term: string, f: Filters): seq<Record>
  {
    Filter(w, r => StageHolds(st, term, f, r))
  }

  /** The records that pass the first `n` stages (a skipped stage passes all). */
  predicate PassesFirst(r: Record, term: string, f: Filters, n: nat)
    requires n <= |StageOrder|
  {
    n == 0 || (PassesFirst(r, term, f, n - 1)
               && (StageActive(StageOrder[n - 1], term, f) ==> StageHolds(StageOrder[n - 1], term, f, r)))
  }

  function KeptByFirst(d: seq<Record>, term: string, f: Filters, n: nat): seq<Record>
    requires n <= |StageOrder|
    decreases |d|
  {
    if |d| == 0 then []
    else (if PassesFirst(d[0], term, f, n) then [d[0]] else []) + KeptByFirst(d[1..], term, f, n)
  }

  lemma {:induction false} KeptByNone(d: seq<Record>, term: string, f: Filters)
    ensures KeptByFirst(d, term, f, 0) == d
    decreases |d|
  {
    if |d| > 0 { KeptByNone(d[1..], term, f); }
  }

  /** A stage as the engine runs it: skipped when inactive, else one filter. */
  function Narrow(w: seq<Record>, st: Stage, term: string, f: Filters): seq<Record>
  {
    if StageActive(st, term, f) then KeepIf(w, st, term, f) else w
  }

  /** Running stage `n` on what passed the stages before it. */
  lemma {:induction false} StageStep(d: seq<Record>, term: string, f: Filters, n: nat)
    requires n < |StageOrder|
    ensures Narrow(KeptByFirst(d, term, f, n), StageOrder[n], term, f) == KeptByFirst(d, term, f, n + 1)
    decreases |d|
  {
    if |d| > 0 {
      StageStep(d[1..], term, f, n);
      var tail := KeptByFirst(d[1..], term, f, n);
      var st := StageOrder[n];
      assert PassesFirst(d[0], term, f, n + 1)
          == (PassesFirst(d[0], term, f, n) && (StageActive(st, term, f) ==> StageHolds(st, term, f, d[0])));
      if PassesFirst(d[0], term, f, n) {
        var w := [d[0]] + tail;
        assert KeptByFirst(d, term, f, n) == w;
        assert w[0] == d[0] && w[1..] == tail;
        if StageActive(st, term, f) {
          assert KeepIf(w, st, term, f)
              == (if StageHolds(st, term, f, d[0]) then [d[0]] else []) + KeepIf(tail, st, term, f);
        }
      } else {
        assert KeptByFirst(d, term, f, n) == tail;
      }
    }
  }

  lemma {:induction false} KeptByAllIsQuery(d: seq<Record>, term: string, f: Filters)
    ensures KeptByFirst(d, term, f, |StageOrder|) == Query(d, term, f)
    decreases |d|
  {
    if |d| > 0 {
      KeptByAllIsQuery(d[1..], term, f);
      PassesAllStages(d[0], term, f);
    }
  }

  lemma PassesAllStages(r: Record, term: string, f: Filters)
    ensures PassesFirst(r, term, f, |StageOrder|) == Matches(r, term, f)
  {
    assert PassesFirst(r, term, f, 1) == (term == "" || SearchHit(r, term));
    assert PassesFirst(r, term, f, 2) == (PassesFirst(r, term, f, 1) && CategoryPasses(f, Departments, r));
    assert PassesFirst(r, term, f, 3) == (PassesFirst(r, term, f, 2) && CategoryPasses(f, Environments, r));
    assert PassesFirst(r, term, f, 4) == (PassesFirst(r, term, f, 3) && CategoryPasses(f, PopeTech, r));
    assert PassesFirst(r, term, f, 5) == (PassesFirst(r, term, f, 4) && CategoryPasses(f, Active, r));
    assert PassesFirst(r, term, f, 6) == (PassesFirst(r, term, f, 5) && CategoryPasses(f, Cms, r));
  }

  /** The six stages in their fixed order compute the query. */
  lemma StagesComposeToQuery(d: seq<Record>, term: string, f: Filters)
    ensures Narrow(Narrow(Narrow(Narrow(Narrow(Narrow(d,
              SearchStage, term, f),
              CategoryStage(Departments), term, f),
              CategoryStage(Environments), term, f),
              CategoryStage(PopeTech), term, f),
              CategoryStage(Active), term, f),
              CategoryStage(Cms), term, f)
            == Query(d, term, f)
  {
    KeptByNone(d, term, f);
    StageStep(d, term, f, 0);
    StageStep(d, term, f, 1);
    StageStep(d, term, f, 2);
    StageStep(d, term, f, 3);
    StageStep(d, term, f, 4);
    StageStep(d, term, f, 5);
    KeptByAllIsQuery(d, term, f);
  }

  /** applySearchAndFilters, stage by stage: it starts from the whole dataset
      and narrows it by the search and then by each selected category. */
  method ApplySearchAndFilters(allData: seq<Record>, term: string, f: Filters)
    returns (workingData: seq<Record>)
    ensures workingData == Query(allData, term, f)
  {
    workingData := allData;
    if term != "" {
      workingData := KeepIf(workingData, SearchStage, term, f);
    }
    ghost var w1 := workingData;
    if |f.departments| > 0 {
      workingData := KeepIf(workingData, CategoryStage(Departments), term, f);
    }
    assert workingData == Narrow(w1, CategoryStage(Departments), term, f);
    ghost var w2 := workingData;
    if |f.environments| > 0 {
      workingData := KeepIf(workingData, CategoryStage(Environments), term, f);
    }
    assert workingData == Narrow(w2, CategoryStage(Environments), term, f);
    ghost var w3 := workingData;
    if |f.popetech| > 0 {
      workingData := KeepIf(workingData, CategoryStage(PopeTech), term, f);
    }
    assert workingData == Narrow(w3, CategoryStage(PopeTech), term, f);
    ghost var w4 := workingData;
    if |f.active| > 0 {
      workingData := KeepIf(workingData, CategoryStage(Active), term, f);
    }
    assert workingData == Narrow(w4, CategoryStage(Active), term, f);
    ghost var w5 := workingData;
    if |f.cms| > 0 {
      workingData := KeepIf(workingData, CategoryStage(Cms), term, f);
    }
    assert workingData == Narrow(w5, CategoryStage(Cms), term, f);
    StagesComposeToQuery(allData, term, f);
  }

  // ---------------------------------------------------------------------------
  // What the query promises

  /** The result is the dataset with some records deleted, in original order. */
  lemma QueryIsSubseq(d: seq<Record>, term: string, f: Filters)
    ensures IsSubseq(Query(d, term, f), d)
    ensures |Query(d, term, f)| <= |d|
  {
    var p := (r: Record) => Matches(r, term, f);
    QueryIsFilter(d, term, f, p);
    FilterIsSubseq(d, p);
  }

  /** A record is in the result exactly when it is in the dataset and passes
      the search and every category with a selection. */
  lemma QueryKeeps(d: seq<Record>, term: string, f: Filters, r: Record)
    ensures r in Query(d, term, f) <==>
              && r in d
              && (term == "" || SearchHit(r, term))
              && (forall c :: |f.Get(c)| > 0 ==> CategoryHit(c, f.Get(c), r))
  {
    var p := (x: Record) => Matches(x, term, f);
    QueryIsFilter(d, term, f, p);
    FilterKeeps(d, p, r);
    MatchesAllCategories(r, term, f);
  }

  /** With no search term and no selection, the whole dataset comes back. */
  lemma {:induction false} QueryUnfiltered(d: seq<Record>)
    ensures Query(d, "", NoFilters) == d
    decreases |d|
  {
    if |d| > 0 { QueryUnfiltered(d[1..]); }
  }

  /** Querying the result again with the same state changes nothing. */
  lemma QueryIdempotent(d: seq<Record>, term: string, f: Filters)
    ensures Query(Query(d, term, f), term, f) == Query(d, term, f)
  {
    var p := (x: Record) => Matches(x, term, f);
    QueryIsFilter(d, term, f, p);
    QueryIsFilter(Filter(d, p), term, f, p);
    FilterFilter(d, p, p, p);
  }

  lemma QueryMono(d: seq<Record>, term: string, f: Filters, term': string, f': Filters)
    requires forall r :: Matches(r, term, f) ==> Matches(r, term', f')
    ensures IsSubseq(Query(d, term, f), Query(d, term', f'))
    ensures |Query(d, term, f)| <= |Query(d, term', f')|
  {
    var p := (x: Record) => Matches(x, term, f);
    var q := (x: Record) => Matches(x, term', f');
    QueryIsFilter(d, term, f, p);
    QueryIsFilter(d, term', f', q);
    FilterMono(d, p, q);
    SubseqLength(Query(d, term, f), Query(d, term', f'));
  }

  /** Selecting values in a category that had none never adds a result. */
  lemma SelectingNarrows(d: seq<Record>, term: string, f: Filters, c: Category, vs: seq<string>)
    ensures IsSubseq(Query(d, term, f.With(c, vs)), Query(d, term, f.With(c, [])))
    ensures |Query(d, term, f.With(c, vs))| <= |Query(d, term, f.With(c, []))|
  {
    forall r | Matches(r, term, f.With(c, vs)) ensures Matches(r, term, f.With(c, [])) {
      MatchesAllCategories(r, term, f.With(c, vs));
      MatchesAllCategories(r, term, f.With(c, []));
    }
    QueryMono(d, term, f.With(c, vs), term, f.With(c, []));
  }

  /** Adding values to a category that already has a selection never removes
      a result: the values of one category are alternatives. */
  lemma WideningNeverRemoves(d: seq<Record>, term: string, f: Filters, c: Category,
                             vs: seq<string>, ws: seq<string>)
    requires |vs| > 0
    requires forall v :: v in vs ==> v in ws
    ensures IsSubseq(Query(d, term, f.With(c, vs)), Query(d, term, f.With(c, ws)))
    ensures |Query(d, term, f.With(c, vs))| <= |Query(d, term, f.With(c, ws))|
  {
    assert vs[0] in ws;
    forall r | Matches(r, term, f.With(c, vs)) ensures Matches(r, term, f.With(c, ws)) {
      MatchesAllCategories(r, term, f.With(c, vs));
      MatchesAllCategories(r, term, f.With(c, ws));
      assert CategoryPasses(f.With(c, vs), c, r);
      assert CategoryHit(c, ws, r) by {
        match c
        case Environments =>
          var v :| v in vs && Contains(Lower(r.environments), Lower(v));
          assert v in ws;
        case Cms =>
          var v :| v in vs && Contains(Lower(r.cms), Lower(v));
          assert v in ws;
        case _ =>
      }
    }
    QueryMono(d, term, f.With(c, vs), term, f.With(c, ws));
  }

  /** Setting a search term never adds a result. */
  lemma SearchingNarrows(d: seq<Record>, term: string, f: Filters)
    ensures IsSubseq(Query(d, term, f), Query(d, "", f))
  {
    QueryMono(d, term, f, "", f);
  }
}
