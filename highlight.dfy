/** highlightMatches and escapeRegExp: the search term is escaped so that the
    regular expression built from it matches the term literally, and every
    case-insensitive, non-overlapping occurrence of the term, scanned from the
    left, is wrapped in a mark element that keeps the original text. */
module Highlight {
  import opened Basics
  import opened Strings

  // ---------------------------------------------------------------------------
  // escapeRegExp

  /** The characters of the class `[.*+?^${}()|[\]\\]`. */
  predicate IsRegExpSpecial(c: char)
  {
    c == '.' || c == '*' || c == '+' || c == '?' || c == '^' || c == '$' || c == '{'
    || c == '}' || c == '(' || c == ')' || c == '|' || c == '[' || c == ']' || c == '\\'
  }

  /** Puts a backslash before every special character, keeping the rest. */
  function EscapeRegExp(s: string): (r: string)
    ensures |s| <= |r| <= 2 * |s|
    decreases |s|
  {
    if |s| == 0 then ""
    else (if IsRegExpSpecial(s[0]) then ['\\', s[0]] else [s[0]]) + EscapeRegExp(s[1..])
  }

  /** How a regular expression reads a pattern made only of literal atoms: an
      ordinary character stands for itself and a backslash followed by a special
      character stands for that character. Any other pattern (an operator, an
      escape that names a class such as `\d`, a dangling backslash) is not a
      plain literal and yields None. */
  function LiteralOf(p: string): (r: Option<string>)
    ensures r.Some? ==> |r.value| <= |p|
    decreases |p|
  {
    if |p| == 0 then Some("")
    else if p[0] == '\\' then
      if |p| >= 2 && IsRegExpSpecial(p[1]) then
        match LiteralOf(p[2..])
        case None => None
        case Some(rest) => Some([p[1]] + rest)
      else None
    else if IsRegExpSpecial(p[0]) then None
    else
      match LiteralOf(p[1..])
      case None => None
      case Some(rest) => Some([p[0]] + rest)
  }

  /** The escaped term is a pattern of literal atoms that spells the term. */
  lemma {:induction false} EscapedTermIsLiteral(s: string)
    ensures LiteralOf(EscapeRegExp(s)) == Some(s)
    decreases |s|
  {
    if |s| > 0 {
      EscapedTermIsLiteral(s[1..]);
      var e := EscapeRegExp(s);
      if IsRegExpSpecial(s[0]) {
        assert e[0] == '\\' && e[1] == s[0] && e[2..] == EscapeRegExp(s[1..]);
      } else {
        assert e[0] == s[0] && e[1..] == EscapeRegExp(s[1..]);
      }
      assert [s[0]] + s[1..] == s;
    }
  }

  // ---------------------------------------------------------------------------
  // The global, case-insensitive replacement

  /** A piece of scanned text: one character left as it is, or a matched span
      that is rendered inside a mark element. */
  datatype Piece = Plain(ch: char) | Marked(span: string)

  /** The term occurs at index `i` of the text when case is ignored. */
  predicate MatchesAt(text: string, term: string, i: int)
  {
    0 <= i && i + |term| <= |text| && EqualsIgnoreCase(text[i..i + |term|], term)
  }

  /** The left-to-right scan of `String.prototype.replace` with a global
      regular expression: at each position either the term matches (and the
      scan resumes after the match) or one character is passed over. */
  function Scan(text: string, term: string): seq<Piece>
    requires |term| > 0
    decreases |text|
  {
    if |text| == 0 then []
    else if |term| <= |text| && EqualsIgnoreCase(text[..|term|], term) then
      [Marked(text[..|term|])] + Scan(text[|term|..], term)
    else [Plain(text[0])] + Scan(text[1..], term)
  }

  function PieceText(p: Piece): string
  {
    match p
    case Plain(c) => [c]
    case Marked(s) => s
  }

  function PieceHtml(p: Piece): string
  {
    match p
    case Plain(c) => [c]
    case Marked(s) => "<mark>" + s + "</mark>"
  }

  /** The text the pieces were cut from. */
  function Flatten(ps: seq<Piece>): string
    decreases |ps|
  {
    if |ps| == 0 then "" else PieceText(ps[0]) + Flatten(ps[1..])
  }

  /** The replacement's output: `<mark>$1</mark>` around every match. */
  function Render(ps: seq<Piece>): string
    decreases |ps|
  {
    if |ps| == 0 then "" else PieceHtml(ps[0]) + Render(ps[1..])
  }

  function MarkCount(ps: seq<Piece>): nat
    decreases |ps|
  {
    if |ps| == 0 then 0 else (if ps[0].Marked? then 1 else 0) + MarkCount(ps[1..])
  }

  /** highlightMatches: an empty term leaves the text alone. */
  function HighlightMatches(text: string, term: string): string
  {
    if term == "" then text else Render(Scan(text, term))
  }

  // ---------------------------------------------------------------------------
  // What highlighting promises

  /** Removing the marks gives back the original text: matches keep their
      original case. */
  lemma {:induction false} ScanKeepsText(text: string, term: string)
    requires |term| > 0
    ensures Flatten(Scan(text, term)) == text
    decreases |text|
  {
    if |text| > 0 {
      var p, n := ScanHead(text, term);
      FlattenCons(p, Scan(text[n..], term));
      ScanKeepsText(text[n..], term);
      assert text[..n] + text[n..] == text;
    }
  }

  /** One step of the scan: a first piece cut from the front of the text,
      then the scan of what follows it. */
  lemma ScanHead(text: string, term: string) returns (p: Piece, n: nat)
    requires |term| > 0 && |text| > 0
    ensures 0 < n <= |text|
    ensures Scan(text, term) == [p] + Scan(text[n..], term)
    ensures PieceText(p) == text[..n]
    ensures p.Plain? ==> !MatchesAt(text, term, 0)
  {
    if |term| <= |text| && EqualsIgnoreCase(text[..|term|], term) {
      p, n := Marked(text[..|term|]), |term|;
    } else {
      p, n := Plain(text[0]), 1;
      assert [text[0]] == text[..1];
      if |term| <= |text| { assert text[0..|term|] == text[..|term|]; }
    }
  }

  /** The scan is global: no match starts where a character was left
      unmarked, so every occurrence not overlapping an earlier mark is
      marked. */
  lemma {:induction false} ScanMissesNothing(text: string, term: string)
    requires |term| > 0
    ensures forall k :: 0 <= k < |Scan(text, term)| && Scan(text, term)[k].Plain? ==>
              !MatchesAt(text, term, |Flatten(Scan(text, term)[..k])|)
    decreases |text|
  {
    if |text| > 0 {
      var p, n := ScanHead(text, term);
      var rest := Scan(text[n..], term);
      var ps := Scan(text, term);
      ScanMissesNothing(text[n..], term);
      forall k | 0 <= k < |ps| && ps[k].Plain?
        ensures !MatchesAt(text, term, |Flatten(ps[..k])|)
      {
        if k == 0 {
          assert ps[..0] == [];
        } else {
          assert ps[k] == rest[k - 1];
          MissesStep(text, term, p, n, rest, k);
        }
      }
    }
  }

  /** An unmarked piece past the first piece misses in the text when it
      misses in the rest. */
  lemma MissesStep(text: string, term: string, p: Piece, n: nat, rest: seq<Piece>, k: nat)
    requires n <= |text| && PieceText(p) == text[..n]
    requires 0 < k <= |rest|
    requires !MatchesAt(text[n..], term, |Flatten(rest[..k - 1])|)
    ensures !MatchesAt(text, term, |Flatten(([p] + rest)[..k])|)
  {
    PrefixCons(p, rest, k);
    FlattenCons(p, rest[..k - 1]);
    MatchesDrop(text, term, n, |Flatten(rest[..k - 1])|);
  }

  lemma PrefixCons(p: Piece, ps: seq<Piece>, k: nat)
    requires 0 < k <= |ps| + 1
    ensures ([p] + ps)[..k] == [p] + ps[..k - 1]
  {
  }

  /** A match in the text past its first n characters is a match in the
      rest. */
  lemma MatchesDrop(text: string, term: string, n: nat, m: nat)
    requires n <= |text|
    ensures MatchesAt(text, term, n + m) <==> MatchesAt(text[n..], term, m)
  {
    if n + m + |term| <= |text| {
      assert text[n..][m..m + |term|] == text[n + m..n + m + |term|];
    }
  }

  lemma FlattenCons(p: Piece, ps: seq<Piece>)
    ensures Flatten([p] + ps) == PieceText(p) + Flatten(ps)
  {
    assert ([p] + ps)[1..] == ps;
  }

  /** Each marked span is the term up to case. */
  lemma {:induction false} MarksMatchTerm(text: string, term: string)
    requires |term| > 0
    ensures forall k :: 0 <= k < |Scan(text, term)| && Scan(text, term)[k].Marked? ==>
              |Scan(text, term)[k].span| == |term| && EqualsIgnoreCase(Scan(text, term)[k].span, term)
    decreases |text|
  {
    if |text| > 0 {
      var n := if |term| <= |text| && EqualsIgnoreCase(text[..|term|], term) then |term| else 1;
      MarksMatchTerm(text[n..], term);
      var ps := Scan(text, term);
      assert ps[1..] == Scan(text[n..], term);
      forall k | 1 <= k < |ps| ensures ps[k] == Scan(text[n..], term)[k - 1] { }
    }
  }

  /** Something is marked exactly when the term occurs somewhere, ignoring
      case. */
  lemma {:induction false} MarkedIffOccurs(text: string, term: string)
    requires |term| > 0
    ensures MarkCount(Scan(text, term)) > 0 <==> exists i :: MatchesAt(text, term, i)
    decreases |text|
  {
    var ps := Scan(text, term);
    if |text| == 0 {
      assert forall i :: !MatchesAt(text, term, i);
    } else if |term| <= |text| && EqualsIgnoreCase(text[..|term|], term) {
      assert text[0..|term|] == text[..|term|];
      assert MatchesAt(text, term, 0);
      assert ps == [Marked(text[..|term|])] + Scan(text[|term|..], term);
      assert ps[0].Marked?;
    } else {
      var rest := text[1..];
      MarkedIffOccurs(rest, term);
      assert ps == [Plain(text[0])] + Scan(rest, term);
      assert MarkCount(ps) == MarkCount(Scan(rest, term)) by {
        assert ps[1..] == Scan(rest, term);
      }
      assert !MatchesAt(text, term, 0) by {
        if |term| <= |text| { assert text[0..|term|] == text[..|term|]; }
      }
      MatchesShift(text, term);
    }
  }

  /** A case-insensitive match is at the first index or a match in the
      rest: the counterpart of Strings.OccursShift for MatchesAt, derived
      from MatchesDrop. */
  lemma MatchesShift(text: string, term: string)
    requires |text| > 0
    ensures (exists i :: MatchesAt(text, term, i)) <==>
              MatchesAt(text, term, 0) || exists j :: MatchesAt(text[1..], term, j)
  {
    if exists i :: MatchesAt(text, term, i) {
      var i :| MatchesAt(text, term, i);
      if i != 0 { MatchesDrop(text, term, 1, i - 1); }
    }
    if exists j :: MatchesAt(text[1..], term, j) {
      var j :| MatchesAt(text[1..], term, j);
      MatchesDrop(text, term, 1, j);
    }
  }

  /** Each mark adds the thirteen characters of `<mark>` and `</mark>`. */
  lemma {:induction false} RenderLength(ps: seq<Piece>)
    ensures |Render(ps)| == |Flatten(ps)| + 13 * MarkCount(ps)
    decreases |ps|
  {
    if |ps| > 0 { RenderLength(ps[1..]); }
  }

  /** Without marks, rendering is the plain text. */
  lemma {:induction false} RenderWithoutMarks(ps: seq<Piece>)
    requires MarkCount(ps) == 0
    ensures Render(ps) == Flatten(ps)
    decreases |ps|
  {
    if |ps| > 0 { RenderWithoutMarks(ps[1..]); }
  }

  /** highlightMatches changes the text exactly when the term is non-empty and
      occurs in it, ignoring case. */
  lemma HighlightChangesIffOccurs(text: string, term: string)
    ensures HighlightMatches(text, term) != text <==>
              term != "" && exists i :: MatchesAt(text, term, i)
  {
    if term != "" {
      var ps := Scan(text, term);
      ScanKeepsText(text, term);
      MarkedIffOccurs(text, term);
      RenderLength(ps);
      if MarkCount(ps) == 0 { RenderWithoutMarks(ps); }
    }
  }

  // ---------------------------------------------------------------------------
  // Deleting the inserted tags

  predicate StartsWith(h: string, p: string) { |p| <= |h| && h[..|p|] == p }

  /** Deletes every `<mark>` and `</mark>` tag, keeping everything else. */
  function StripMarks(h: string): string
    decreases |h|
  {
    if |h| == 0 then ""
    else if StartsWith(h, "<mark>") then StripMarks(h[6..])
    else if StartsWith(h, "</mark>") then StripMarks(h[7..])
    else [h[0]] + StripMarks(h[1..])
  }

  /** Text without `<` passes through unchanged. */
  lemma {:induction false} StripPlainPrefix(s: string, t: string)
    requires '<' !in s
    ensures StripMarks(s + t) == s + StripMarks(t)
    decreases |s|
  {
    if |s| > 0 {
      var h := s + t;
      assert h[0] == s[0] && h[1..] == s[1..] + t;
      assert !StartsWith(h, "<mark>") && !StartsWith(h, "</mark>") by {
        assert h[0] != '<';
        assert "<mark>"[0] == '<' && "</mark>"[0] == '<';
      }
      assert StripMarks(h) == [h[0]] + StripMarks(h[1..]);
      StripPlainPrefix(s[1..], t);
      assert [s[0]] + (s[1..] + StripMarks(t)) == s + StripMarks(t);
    } else {
      assert s + t == t;
    }
  }

  lemma StripPiece(p: Piece, t: string)
    requires '<' !in PieceText(p)
    ensures StripMarks(PieceHtml(p) + t) == PieceText(p) + StripMarks(t)
  {
    match p
    case Plain(c) =>
      StripPlainPrefix([c], t);
    case Marked(s) =>
      var close := "</mark>" + t;
      assert PieceHtml(p) + t == "<mark>" + (s + close);
      StripOpenTag(s + close);
      StripPlainPrefix(s, close);
      StripCloseTag(t);
  }

  lemma StripOpenTag(u: string)
    ensures StripMarks("<mark>" + u) == StripMarks(u)
  {
    var h := "<mark>" + u;
    assert StartsWith(h, "<mark>") by { assert h[..6] == "<mark>"; }
    assert h[6..] == u;
  }

  lemma StripCloseTag(t: string)
    ensures StripMarks("</mark>" + t) == StripMarks(t)
  {
    var close := "</mark>" + t;
    assert !StartsWith(close, "<mark>") by { assert close[1] == '/'; }
    assert StartsWith(close, "</mark>") by { assert close[..7] == "</mark>"; }
    assert close[7..] == t;
  }

  lemma {:induction false} StripRender(ps: seq<Piece>)
    requires '<' !in Flatten(ps)
    ensures StripMarks(Render(ps)) == Flatten(ps)
    decreases |ps|
  {
    if |ps| > 0 {
      assert '<' !in PieceText(ps[0]) && '<' !in Flatten(ps[1..]) by {
        assert Flatten(ps) == PieceText(ps[0]) + Flatten(ps[1..]);
        assert forall c :: c in PieceText(ps[0]) ==> c in Flatten(ps);
        assert forall c :: c in Flatten(ps[1..]) ==> c in Flatten(ps);
      }
      StripRender(ps[1..]);
      StripPiece(ps[0], Render(ps[1..]));
    }
  }

  /** For a text without tags of its own, deleting the inserted tags restores
      the text, whatever the term. */
  lemma HighlightStripsBack(text: string, term: string)
    requires '<' !in text
    ensures StripMarks(HighlightMatches(text, term)) == text
  {
    if term == "" {
      StripPlainPrefix(text, "");
      assert text + "" == text;
    } else {
      ScanKeepsText(text, term);
      StripRender(Scan(text, term));
    }
  }

  /** The stored search term is lower-case, and for such a term a hit of the
      search stage (a substring of the lower-cased field) is exactly a place
      that highlighting marks. */
  lemma SearchHitIsMatch(text: string, term: string, i: int)
    requires NoUpper(term)
    ensures OccursAt(Lower(text), term, i) <==> MatchesAt(text, term, i)
  {
    if 0 <= i && i + |term| <= |text| {
      assert Lower(text)[i..i + |term|] == Lower(text[i..i + |term|]);
      assert Lower(term) == term;
    }
  }
}
