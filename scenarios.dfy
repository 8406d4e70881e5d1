/** A two-record dataset and what the engine makes of it: a search, an exact
    token filter, a substring filter on a comma-joined field, the empty state,
    and a highlighted field. */
module Scenarios {
  import opened Strings
  import opened Records
  import opened QueryEngine
  import opened Highlight
  import opened Presentation

  const Admissions: Record :=
    Record("Admissions", "1", "Apply", "prod, staging", "", "", "", "", "true", "", "true", "Drupal")

  const It: Record :=
    Record("IT", "2", "Portal", "prod", "", "", "", "", "false", "", "false", "WordPress, Drupal")

  const Sites: seq<Record> := [Admissions, It]

  /** A term with a letter that the text has in neither case does not occur
      in the lower-cased text. */
  lemma MissingLetter(s: string, t: string, c: char)
    requires c in t && !IsUpper(c)
    requires c !in s && (if 'a' <= c <= 'z' then (c as int - 32) as char !in s else true)
    ensures !Contains(Lower(s), t)
  {
    ContainsAt(Lower(s), t);
  }

  lemma QueryOfTwo(a: Record, b: Record, term: string, f: Filters)
    ensures Query([a, b], term, f) ==
              (if Matches(a, term, f) then [a] else []) + (if Matches(b, term, f) then [b] else [])
  {
    assert [a, b][1..] == [b];
    assert [b][1..] == [];
    assert Query([b], term, f) == (if Matches(b, term, f) then [b] else []) + [];
  }

  lemma IncludedAt(s: string, t: string, i: int)
    requires OccursAt(s, t, i)
    ensures Contains(s, t)
  {
    ContainsAt(s, t);
  }

  lemma AdmissionsHitsApply()
    ensures SearchHit(Admissions, "apply")
  {
    assert Lower("Apply") == "apply";
    IncludedAt(Lower(Fields(Admissions)[2]), "apply", 0);
  }

  /** No field of the second record has a "y" in it. */
  lemma ItMissesApply()
    ensures !SearchHit(It, "apply")
  {
    var fs := Fields(It);
    var values := ["IT", "2", "Portal", "prod", "", "false", "WordPress, Drupal"];
    forall v | v in values ensures !Contains(Lower(v), "apply") {
      assert 'y' !in v && 'Y' !in v;
      MissingLetter(v, "apply", 'y');
    }
    forall k | 0 <= k < 12 ensures !Contains(Lower(fs[k]), "apply") {
      assert fs[k] in values;
    }
  }

  /** Searching "apply" keeps only the record titled "Apply". */
  lemma SearchApply()
    ensures Query(Sites, "apply", NoFilters) == [Admissions]
  {
    AdmissionsHitsApply();
    ItMissesApply();
    QueryOfTwo(Admissions, It, "apply", NoFilters);
  }

  /** With no term and a single category selected, a record matches exactly
      when it hits that category. */
  lemma OnlyCategory(c: Category, vs: seq<string>, r: Record)
    requires |vs| > 0
    ensures Matches(r, "", NoFilters.With(c, vs)) <==> CategoryHit(c, vs, r)
  {
    var f := NoFilters.With(c, vs);
    forall d | d != c ensures CategoryPasses(f, d, r) {
      assert f.Get(d) == [];
    }
    assert f.Get(c) == vs;
    assert CategoryPasses(f, c, r) <==> CategoryHit(c, vs, r);
  }

  lemma AdmissionsIsDrupal()
    ensures SomeValueIncluded(["Drupal"], Admissions.cms)
  {
    assert Lower("Drupal") == "drupal";
    IncludedAt(Lower("Drupal"), "drupal", 0);
    assert "Drupal" in ["Drupal"];
  }

  lemma ItIsDrupal()
    ensures SomeValueIncluded(["Drupal"], It.cms)
  {
    assert Lower("Drupal") == "drupal";
    assert Lower("WordPress, Drupal") == "wordpress, drupal";
    IncludedAt(Lower("WordPress, Drupal"), "drupal", 11);
    assert "Drupal" in ["Drupal"];
  }

  /** The cms value "Drupal" matches both records, one of them inside the
      comma-joined "WordPress, Drupal". */
  lemma CmsDrupal()
    ensures Query(Sites, "", NoFilters.With(Cms, ["Drupal"])) == Sites
  {
    AdmissionsIsDrupal();
    ItIsDrupal();
    OnlyCategory(Cms, ["Drupal"], Admissions);
    OnlyCategory(Cms, ["Drupal"], It);
    QueryOfTwo(Admissions, It, "", NoFilters.With(Cms, ["Drupal"]));
  }

  /** The active value "true" is matched exactly: only the first record. */
  lemma ActiveTrue()
    ensures Query(Sites, "", NoFilters.With(Active, ["true"])) == [Admissions]
  {
    var f := NoFilters.With(Active, ["true"]);
    OnlyCategory(Active, ["true"], Admissions);
    OnlyCategory(Active, ["true"], It);
    assert Matches(Admissions, "", f) && !Matches(It, "", f);
    QueryOfTwo(Admissions, It, "", f);
  }

  /** No term and no selection: everything, and nothing is shown. */
  lemma NothingSelected(hl: bool)
    ensures Query(Sites, "", NoFilters) == Sites
    ensures Display(Sites, "", NoFilters, hl) == Hidden
  {
    QueryUnfiltered(Sites);
  }

  /** Highlighting "prod" in the environments of the second record marks the
      whole field once. */
  lemma HighlightProd()
    ensures Scan(It.environments, "prod") == [Marked("prod")]
    ensures HighlightMatches(It.environments, "prod") == "<mark>prod</mark>"
  {
    assert Lower("prod") == "prod";
    assert "prod"[..4] == "prod" && "prod"[4..] == "";
  }
}
