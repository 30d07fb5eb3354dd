/** The textual side of the colon rule: its two patterns, what it means for
    a span of text to match one, and the left-to-right search that
    NSRegularExpression performs over a whole text. */
module ColonPatterns {
  import opened Wrappers
  import opened Characters

  /** A half-open span of the text, as an NSRange: where it starts and how
      many characters it covers. */
  datatype Range = Range(location: nat, length: nat) {
    function End(): nat { location + length }
  }

  /** A raw match: the range it covers and its two captures, `$1` (the
      identifier left of the colon) and `$2` (the token right of it). */
  datatype Match = Match(range: Range, left: string, right: string)

  datatype Pattern =
    | SpacingLeftOfColon   // (\w+)\s+:\s*(\[?\S+?)
    | SpacingRightOfColon  // (\w+):(?:\s{0}|\s{2,})(\S+?)
    | Joined               // the two above joined with "|"

  /** The rule's patterns, in the order the corrector runs them. */
  function Patterns(): (ps: seq<Pattern>)
    ensures |ps| == 2 && ps[0] == SpacingLeftOfColon && ps[1] != ps[0] && Joined !in ps
  {
    [SpacingLeftOfColon, SpacingRightOfColon]
  }

  /** `\s+:\s*`: one colon, white space on both sides, at least one space
      before it. */
  ghost predicate IsLeftSeparator(sep: string) {
    exists k :: 0 < k < |sep| && sep[k] == ':' && AllIn(sep[..k], Space) && AllIn(sep[k + 1..], Space)
  }

  /** `:(?:\s{0}|\s{2,})`: a colon followed by no white space or by at least
      two white-space characters. */
  ghost predicate IsRightSeparator(sep: string) {
    0 < |sep| && sep[0] == ':' && |sep| != 2 && AllIn(sep[1..], Space)
  }

  ghost predicate SeparatorFits(p: Pattern, sep: string) {
    match p
    case SpacingLeftOfColon => IsLeftSeparator(sep)
    case SpacingRightOfColon => IsRightSeparator(sep)
    case Joined => IsLeftSeparator(sep) || IsRightSeparator(sep)
  }

  /** The text covered by `m` belongs to the language of `p`: it is the left
      capture (word characters), a separator of the pattern's kind, and the
      right capture (characters that are not white space). */
  ghost predicate HasShape(p: Pattern, t: string, m: Match) {
    var s, e := m.range.location, m.range.End();
    && e <= |t|
    && 0 < |m.left| && 0 < |m.right| && |m.left| + |m.right| <= m.range.length
    && AllIn(m.left, Word) && NoSpace(m.right)
    && t[s..s + |m.left|] == m.left
    && t[e - |m.right|..e] == m.right
    && SeparatorFits(p, t[s + |m.left|..e - |m.right|])
  }

  /** The lazy `\S+?` stops after one character; in the left-of-colon
      pattern the optional `\[?` keeps a `[` together with the character
      after it when that character is not white space. The joined pattern
      takes the left alternative's capture when the span has the left
      alternative's shape, and the right alternative's otherwise. */
  ghost predicate ShortestRight(p: Pattern, t: string, m: Match) {
    match p
    case SpacingLeftOfColon => LeftShortest(t, m)
    case SpacingRightOfColon => |m.right| == 1
    case Joined => if HasShape(SpacingLeftOfColon, t, m) then LeftShortest(t, m) else |m.right| == 1
  }

  /** The right capture `\[?\S+?` of the left-of-colon pattern selects. */
  ghost predicate LeftShortest(t: string, m: Match) {
    var e := m.range.End();
    || (|m.right| == 1 && (m.right[0] == '[' ==> (e < |t| ==> IsSpace(t[e]))))
    || (|m.right| == 2 && m.right[0] == '[')
  }

  /** A separator starts with white space in the left-of-colon pattern and
      with the colon in the right-of-colon one, so no separator fits both. */
  lemma SeparatorsDisjoint(sep: string)
    ensures !(IsLeftSeparator(sep) && IsRightSeparator(sep))
  {
    if IsLeftSeparator(sep) {
      var k :| 0 < k < |sep| && sep[k] == ':' && AllIn(sep[..k], Space) && AllIn(sep[k + 1..], Space);
      assert sep[..k][0] == sep[0];
    }
  }

  /** `(\w+)\s+:\s*(\[?\S+?)` tried at position `i`. */
  function LeftOfColonAt(t: string, i: nat): (r: Option<Match>)
    requires i <= |t|
    ensures r.Some? ==> r.value.range.location == i < r.value.range.End() <= |t|
  {
    var w := RunEnd(t, i, Word);
    if w == i then None
    else
      var colon := RunEnd(t, w, Space);
      if colon == w || colon == |t| || t[colon] != ':' then None
      else
        var c := RunEnd(t, colon + 1, Space);
        if c == |t| then None
        else
          var e := if t[c] == '[' && c + 1 < |t| && !IsSpace(t[c + 1]) then c + 2 else c + 1;
          Some(Match(Range(i, e - i), t[i..w], t[c..e]))
  }

  /** The positions LeftOfColonAt finds delimit a match of the left-of-colon
      shape. */
  lemma LeftOfColonShape(t: string, i: nat, w: nat, colon: nat, c: nat, e: nat)
    requires i < w < colon < c < e <= |t|
    requires AllIn(t[i..w], Word) && AllIn(t[w..colon], Space) && t[colon] == ':'
    requires AllIn(t[colon + 1..c], Space) && !IsSpace(t[c])
    requires e == c + 1 || (e == c + 2 && !IsSpace(t[c + 1]))
    ensures HasShape(SpacingLeftOfColon, t, Match(Range(i, e - i), t[i..w], t[c..e]))
  {
    var sep := t[w..c];
    assert sep[..colon - w] == t[w..colon];
    assert sep[colon - w + 1..] == t[colon + 1..c];
    assert IsLeftSeparator(sep) by {
      LeftSeparatorWitness(sep, colon - w);
    }
    assert NoSpace(t[c..e]) by {
      forall k | 0 <= k < e - c ensures !IsSpace(t[c..e][k]) {
        assert t[c..e][k] == t[c + k];
      }
    }
  }

  lemma LeftSeparatorWitness(sep: string, k: nat)
    requires 0 < k < |sep| && sep[k] == ':'
    requires AllIn(sep[..k], Space) && AllIn(sep[k + 1..], Space)
    ensures IsLeftSeparator(sep)
  {
  }

  /** `(\w+):(?:\s{0}|\s{2,})(\S+?)` tried at position `i`. */
  function RightOfColonAt(t: string, i: nat): (r: Option<Match>)
    requires i <= |t|
    ensures r.Some? ==> r.value.range.location == i < r.value.range.End() <= |t|
  {
    var w := RunEnd(t, i, Word);
    if w == i || w == |t| || t[w] != ':' then None
    else
      var c := RunEnd(t, w + 1, Space);
      if c == |t| || c - (w + 1) == 1 then None
      else Some(Match(Range(i, c + 1 - i), t[i..w], t[c..c + 1]))
  }

  /** The match of `p` that starts at `i`, if any. The joined pattern tries
      its left alternative first. */
  function MatchAt(p: Pattern, t: string, i: nat): (r: Option<Match>)
    requires i <= |t|
    ensures r.Some? ==> r.value.range.location == i < r.value.range.End() <= |t|
  {
    match p
    case SpacingLeftOfColon => LeftOfColonAt(t, i)
    case SpacingRightOfColon => RightOfColonAt(t, i)
    case Joined => if LeftOfColonAt(t, i).Some? then LeftOfColonAt(t, i) else RightOfColonAt(t, i)
  }

  /** What MatchAt returns is a span of the pattern's shape, with the
      shortest right capture the lazy quantifier allows. */
  lemma MatchAtSound(p: Pattern, t: string, i: nat)
    requires i <= |t| && MatchAt(p, t, i).Some?
    ensures HasShape(p, t, MatchAt(p, t, i).value)
    ensures ShortestRight(p, t, MatchAt(p, t, i).value)
  {
    match p
    case SpacingLeftOfColon => LeftOfColonSound(t, i);
    case SpacingRightOfColon => RightOfColonSound(t, i);
    case Joined =>
      if LeftOfColonAt(t, i).Some? {
        LeftOfColonSound(t, i);
      } else {
        RightOfColonSound(t, i);
        var m := RightOfColonAt(t, i).value;
        SeparatorsDisjoint(t[i + |m.left|..m.range.End() - |m.right|]);
      }
  }

  lemma LeftOfColonSound(t: string, i: nat)
    requires i <= |t| && LeftOfColonAt(t, i).Some?
    ensures HasShape(SpacingLeftOfColon, t, LeftOfColonAt(t, i).value)
    ensures ShortestRight(SpacingLeftOfColon, t, LeftOfColonAt(t, i).value)
  {
    var w := RunEnd(t, i, Word);
    var colon := RunEnd(t, w, Space);
    var c := RunEnd(t, colon + 1, Space);
    var e := LeftOfColonAtIs(t, i, w, colon, c);
    LeftOfColonShape(t, i, w, colon, c, e);
  }

  lemma RightOfColonSound(t: string, i: nat)
    requires i <= |t| && RightOfColonAt(t, i).Some?
    ensures HasShape(SpacingRightOfColon, t, RightOfColonAt(t, i).value)
    ensures ShortestRight(SpacingRightOfColon, t, RightOfColonAt(t, i).value)
  {
    var w := RunEnd(t, i, Word);
    var c := RunEnd(t, w + 1, Space);
    assert RightOfColonAt(t, i).value == Match(Range(i, c + 1 - i), t[i..w], t[c..c + 1]);
    RightOfColonShape(t, i, w, c);
  }

  /** The positions RightOfColonAt finds delimit a match of the
      right-of-colon shape. */
  lemma RightOfColonShape(t: string, i: nat, w: nat, c: nat)
    requires i < w < c < |t| && c - (w + 1) != 1
    requires AllIn(t[i..w], Word) && t[w] == ':' && AllIn(t[w + 1..c], Space) && !IsSpace(t[c])
    ensures HasShape(SpacingRightOfColon, t, Match(Range(i, c + 1 - i), t[i..w], t[c..c + 1]))
  {
    var sep := t[w..c];
    assert sep[1..] == t[w + 1..c];
    assert t[c..c + 1][0] == t[c];
  }

  /** Every span of the left-of-colon shape is found by LeftOfColonAt at its
      start, and the one with the shortest right capture is exactly what it
      returns. */
  lemma LeftOfColonComplete(t: string, m: Match)
    requires HasShape(SpacingLeftOfColon, t, m)
    ensures LeftOfColonAt(t, m.range.location).Some?
    ensures ShortestRight(SpacingLeftOfColon, t, m) ==> LeftOfColonAt(t, m.range.location) == Some(m)
  {
    var s, e := m.range.location, m.range.End();
    var w, c := s + |m.left|, e - |m.right|;
    var colon := LeftOfColonRuns(t, m);
    CaptureFacts(SpacingLeftOfColon, t, m);
    var e' := LeftOfColonAtIs(t, s, w, colon, c);
    if ShortestRight(SpacingLeftOfColon, t, m) {
      assert e' == e;
      assert m == Match(Range(s, e - s), t[s..w], t[c..e]);
      assert LeftOfColonAt(t, s) == Some(m);
    }
  }

  /** The value LeftOfColonAt computes from the ends of its three runs. */
  lemma LeftOfColonAtIs(t: string, i: nat, w: nat, colon: nat, c: nat) returns (e: nat)
    requires i < w < colon < c < |t|
    requires RunEnd(t, i, Word) == w && RunEnd(t, w, Space) == colon && t[colon] == ':'
    requires RunEnd(t, colon + 1, Space) == c
    ensures e == if t[c] == '[' && c + 1 < |t| && !IsSpace(t[c + 1]) then c + 2 else c + 1
    ensures LeftOfColonAt(t, i) == Some(Match(Range(i, e - i), t[i..w], t[c..e]))
  {
    e := if t[c] == '[' && c + 1 < |t| && !IsSpace(t[c + 1]) then c + 2 else c + 1;
  }

  /** The three greedy runs of the left-of-colon pattern end where the shape
      of `m` says: after the left capture, at the colon, and at the right
      capture. */
  lemma LeftOfColonRuns(t: string, m: Match) returns (colon: nat)
    requires HasShape(SpacingLeftOfColon, t, m)
    ensures RunEnd(t, m.range.location, Word) == m.range.location + |m.left|
    ensures m.range.location + |m.left| < colon < m.range.End() - |m.right|
    ensures RunEnd(t, m.range.location + |m.left|, Space) == colon
    ensures t[colon] == ':'
    ensures RunEnd(t, colon + 1, Space) == m.range.End() - |m.right|
  {
    var s, e := m.range.location, m.range.End();
    var w, c := s + |m.left|, e - |m.right|;
    CaptureFacts(SpacingLeftOfColon, t, m);
    colon := LeftSeparatorFacts(t, w, c);
    RunEndUnique(t, s, Word, w);
    RunEndUnique(t, w, Space, colon);
    RunEndUnique(t, colon + 1, Space, c);
  }

  /** The position of the colon in a left-of-colon separator. */
  lemma LeftSeparatorColon(sep: string) returns (k: nat)
    requires IsLeftSeparator(sep)
    ensures 0 < k < |sep| && sep[k] == ':' && AllIn(sep[..k], Space) && AllIn(sep[k + 1..], Space)
  {
    k :| 0 < k < |sep| && sep[k] == ':' && AllIn(sep[..k], Space) && AllIn(sep[k + 1..], Space);
  }

  /** The separator of a left-of-colon span, by position in the text. */
  lemma LeftSeparatorFacts(t: string, w: nat, c: nat) returns (colon: nat)
    requires w <= c <= |t| && IsLeftSeparator(t[w..c])
    ensures w < colon < c && t[colon] == ':'
    ensures AllIn(t[w..colon], Space) && AllIn(t[colon + 1..c], Space)
    ensures IsSpace(t[w])
  {
    var k := LeftSeparatorColon(t[w..c]);
    colon := w + k;
    assert AllIn(t[w..colon], Space) by {
      AllInWithin(t, w, c, 0, k, Space);
    }
    assert AllIn(t[colon + 1..c], Space) by {
      AllInWithin(t, w, c, k + 1, c - w, Space);
    }
    assert InClass(t[w..colon][0], Space);
  }

  /** What the shape says about the characters of the two captures, by
      position in the text. */
  lemma CaptureFacts(p: Pattern, t: string, m: Match)
    requires HasShape(p, t, m)
    ensures var s, e := m.range.location, m.range.End();
      && s < s + |m.left| <= e - |m.right| < e <= |t|
      && AllIn(t[s..s + |m.left|], Word)
      && !IsSpace(t[e - |m.right|])
      && (|m.right| == 2 ==> t[e - 1] == m.right[1] && !IsSpace(t[e - 1]))
      && t[e - |m.right|] == m.right[0]
  {
    var e := m.range.End();
    assert t[e - |m.right|..e][0] == t[e - |m.right|];
    if |m.right| == 2 {
      assert t[e - |m.right|..e][1] == t[e - 1];
    }
  }

  /** The same for the right-of-colon shape and RightOfColonAt. */
  lemma RightOfColonComplete(t: string, m: Match)
    requires HasShape(SpacingRightOfColon, t, m)
    ensures RightOfColonAt(t, m.range.location).Some?
    ensures ShortestRight(SpacingRightOfColon, t, m) ==> RightOfColonAt(t, m.range.location) == Some(m)
  {
    var s, e := m.range.location, m.range.End();
    var w, c := s + |m.left|, e - |m.right|;
    var sep := t[w..c];
    assert t[s..w] == m.left;
    assert t[w] == sep[0];
    RunEndUnique(t, s, Word, w);
    assert t[w + 1..c] == sep[1..];
    assert t[c] == m.right[0];
    RunEndUnique(t, w + 1, Space, c);
  }

  /** A span of the right-of-colon shape has its colon right after the
      word, so the left-of-colon alternative fails at its start. */
  lemma RightShapeNotLeft(t: string, m: Match)
    requires HasShape(SpacingRightOfColon, t, m)
    ensures LeftOfColonAt(t, m.range.location).None?
    ensures !HasShape(SpacingLeftOfColon, t, m)
  {
    var s, e := m.range.location, m.range.End();
    var w, c := s + |m.left|, e - |m.right|;
    var sep := t[w..c];
    SeparatorsDisjoint(sep);
    assert t[s..w] == m.left;
    assert t[w] == sep[0];
    RunEndUnique(t, s, Word, w);
    RunEndUnique(t, w, Space, w);
  }

  /** The joined pattern finds every span of either alternative's shape at
      its start, and returns exactly the one the lazy capture selects. */
  lemma JoinedComplete(t: string, m: Match)
    requires HasShape(Joined, t, m)
    ensures MatchAt(Joined, t, m.range.location).Some?
    ensures ShortestRight(Joined, t, m) ==> MatchAt(Joined, t, m.range.location) == Some(m)
  {
    var sep := t[m.range.location + |m.left|..m.range.End() - |m.right|];
    if IsLeftSeparator(sep) {
      assert HasShape(SpacingLeftOfColon, t, m);
      LeftOfColonComplete(t, m);
    } else {
      assert HasShape(SpacingRightOfColon, t, m);
      RightShapeNotLeft(t, m);
      RightOfColonComplete(t, m);
    }
  }

  /** Together with MatchAt's postcondition: a pattern matches at a position
      exactly when a span of its shape starts there, and MatchAt returns the
      one the lazy right capture selects. */
  lemma MatchAtComplete(p: Pattern, t: string, m: Match)
    requires HasShape(p, t, m)
    ensures MatchAt(p, t, m.range.location).Some?
    ensures ShortestRight(p, t, m) ==> MatchAt(p, t, m.range.location) == Some(m)
  {
    match p
    case SpacingLeftOfColon => LeftOfColonComplete(t, m);
    case SpacingRightOfColon => RightOfColonComplete(t, m);
    case Joined => JoinedComplete(t, m);
  }

  /** Matches lie inside the text, are not empty, and come in increasing,
      non-overlapping order. */
  predicate Ordered(t: string, ms: seq<Match>) {
    && (forall k :: 0 <= k < |ms| ==> 0 < ms[k].range.length && ms[k].range.End() <= |t|)
    && (forall j, k :: 0 <= j < k < |ms| ==> ms[j].range.End() <= ms[k].range.location)
  }

  /** A match of `p` starts at position `j`. */
  ghost predicate StartsAt(p: Pattern, t: string, j: nat) {
    j <= |t| && MatchAt(p, t, j).Some?
  }

  /** Position `j` lies inside one of the matches. */
  ghost predicate Covered(ms: seq<Match>, j: nat) {
    exists k :: 0 <= k < |ms| && ms[k].range.location <= j < ms[k].range.End()
  }

  /** All matches of `p` in `t` from position `i` on, as a regular
      expression search reports them: the leftmost match first, then the
      search resumes where that match ends. Every reported match is the one
      MatchAt finds at its start, and every position where the pattern could
      start a match is either reported or inside a reported match. */
  function Scan(p: Pattern, t: string, i: nat): (ms: seq<Match>)
    requires i <= |t|
    ensures Ordered(t, ms)
    ensures forall k :: 0 <= k < |ms| ==> i <= ms[k].range.location && MatchAt(p, t, ms[k].range.location) == Some(ms[k])
    ensures forall j :: i <= j < |t| && StartsAt(p, t, j) ==> Covered(ms, j)
    decreases |t| - i
  {
    if i == |t| then []
    else
      match MatchAt(p, t, i)
      case Some(m) =>
        var rest := Scan(p, t, m.range.End());
        ScanStep(p, t, i, m, rest);
        [m] + rest
      case None => Scan(p, t, i + 1)
  }

  /** A match at `i` followed by the matches from its end on are the
      matches from `i` on. */
  lemma ScanStep(p: Pattern, t: string, i: nat, m: Match, rest: seq<Match>)
    requires i < |t| && MatchAt(p, t, i) == Some(m)
    requires Ordered(t, rest)
    requires forall k :: 0 <= k < |rest| ==> m.range.End() <= rest[k].range.location
    requires forall j :: m.range.End() <= j < |t| && StartsAt(p, t, j) ==> Covered(rest, j)
    ensures Ordered(t, [m] + rest)
    ensures forall j :: i <= j < |t| && StartsAt(p, t, j) ==> Covered([m] + rest, j)
  {
    var ms := [m] + rest;
    forall j | i <= j < |t| && StartsAt(p, t, j) ensures Covered(ms, j) {
      if j < m.range.End() {
        assert ms[0] == m;
      } else {
        var k :| 0 <= k < |rest| && rest[k].range.location <= j < rest[k].range.End();
        assert ms[k + 1] == rest[k];
      }
    }
  }

  /** Every match of either pattern contains a colon. */
  lemma MatchHasColon(p: Pattern, t: string, j: nat) returns (q: nat)
    requires j <= |t| && MatchAt(p, t, j).Some?
    ensures j <= q < MatchAt(p, t, j).value.range.End() && t[q] == ':'
  {
    var w := RunEnd(t, j, Word);
    if p == SpacingLeftOfColon || (p == Joined && LeftOfColonAt(t, j).Some?) {
      q := RunEnd(t, w, Space);
    } else {
      q := w;
    }
  }

  /** Where no colon follows, the search finds nothing. */
  lemma {:induction false} NoColonNoMatches(p: Pattern, t: string, i: nat)
    requires i <= |t| && ':' !in t[i..]
    ensures Scan(p, t, i) == []
    decreases |t| - i
  {
    if i < |t| {
      if MatchAt(p, t, i).Some? {
        var q := MatchHasColon(p, t, i);
        assert false;
      }
      assert t[i + 1..] == t[i..][1..];
      NoColonNoMatches(p, t, i + 1);
    }
  }

  /** No match starts at a character that is not a word character. */
  lemma SkipNonWord(p: Pattern, t: string, i: nat)
    requires i < |t| && !IsWordChar(t[i])
    ensures Scan(p, t, i) == Scan(p, t, i + 1)
  {
    assert RunEnd(t, i, Word) == i;
  }

  /** Inside a word, a match starts at the next character only if one
      starts at this one: both see the same end of the word. */
  lemma SameWordSameOutcome(p: Pattern, t: string, i: nat)
    requires i + 1 < |t| && IsWordChar(t[i]) && IsWordChar(t[i + 1])
    ensures MatchAt(p, t, i).None? ==> MatchAt(p, t, i + 1).None?
  {
    LeftSameWord(t, i);
    RightSameWord(t, i);
  }

  lemma LeftSameWord(t: string, i: nat)
    requires i + 1 < |t| && IsWordChar(t[i]) && IsWordChar(t[i + 1])
    ensures LeftOfColonAt(t, i).None? <==> LeftOfColonAt(t, i + 1).None?
  {
    assert RunEnd(t, i, Word) == RunEnd(t, i + 1, Word);
  }

  lemma RightSameWord(t: string, i: nat)
    requires i + 1 < |t| && IsWordChar(t[i]) && IsWordChar(t[i + 1])
    ensures RightOfColonAt(t, i).None? <==> RightOfColonAt(t, i + 1).None?
  {
    assert RunEnd(t, i, Word) == RunEnd(t, i + 1, Word);
  }

  /** When no match starts at the first character of a word, none starts
      inside that word either. */
  lemma {:induction false} SkipWord(p: Pattern, t: string, i: nat)
    requires i < |t| && IsWordChar(t[i]) && MatchAt(p, t, i).None?
    ensures Scan(p, t, i) == Scan(p, t, RunEnd(t, i, Word))
    decreases |t| - i
  {
    if i + 1 < |t| && IsWordChar(t[i + 1]) {
      SameWordSameOutcome(p, t, i);
      assert RunEnd(t, i, Word) == RunEnd(t, i + 1, Word);
      SkipWord(p, t, i + 1);
    } else {
      assert RunEnd(t, i + 1, Word) == i + 1;
    }
  }

  /** No character of `t[i..j]` is a word character. */
  predicate NoWordIn(t: string, i: nat, j: nat)
    requires i <= j <= |t|
    decreases j - i
  {
    i == j || (!IsWordChar(t[i]) && NoWordIn(t, i + 1, j))
  }

  /** Skipping a non-empty stretch of characters none of which is a word
      character. */
  lemma {:induction false} SkipNonWords(p: Pattern, t: string, i: nat, j: nat)
    requires i < j <= |t| && NoWordIn(t, i, j)
    ensures Scan(p, t, i) == Scan(p, t, j)
    decreases j - i
  {
    SkipNonWord(p, t, i);
    if i + 1 < j {
      SkipNonWords(p, t, i + 1, j);
    }
  }

  /** The matches of `p` over the whole text. */
  function Matches(p: Pattern, t: string): (ms: seq<Match>)
    ensures Ordered(t, ms)
    ensures forall k :: 0 <= k < |ms| ==> MatchAt(p, t, ms[k].range.location) == Some(ms[k])
    ensures forall j :: 0 <= j < |t| && StartsAt(p, t, j) ==> Covered(ms, j)
  {
    Scan(p, t, 0)
  }

  /** `patterns()` joined with `|` matches at a position exactly when one
      of the rule's patterns matches there. */
  lemma JoinedIsEither(t: string, i: nat)
    ensures StartsAt(Joined, t, i) <==> StartsAt(Patterns()[0], t, i) || StartsAt(Patterns()[1], t, i)
  {
  }

  /** A text in which neither of the rule's patterns matches has no match
      of the joined pattern either. */
  lemma JoinedNeedsAPattern(t: string)
    requires Matches(SpacingLeftOfColon, t) == [] && Matches(SpacingRightOfColon, t) == []
    ensures Matches(Joined, t) == []
  {
    var ms := Matches(Joined, t);
    if ms != [] {
      JoinedIsEither(t, ms[0].range.location);
      assert false;
    }
  }

  /** `m` moved `d` characters to the right. */
  function Shifted(m: Match, d: nat): (r: Match)
    ensures r.range.length == m.range.length && r.left == m.left && r.right == m.right
    ensures r.range.location == m.range.location + d
  {
    Match(Range(m.range.location + d, m.range.length), m.left, m.right)
  }

  /** Whether a span has a pattern's shape depends only on the characters it
      covers: it is the same in the text and in any slice holding the span. */
  lemma ShapeInSlice(p: Pattern, t: string, a: nat, b: nat, m: Match)
    requires a <= b <= |t| && m.range.End() <= b - a
    ensures HasShape(p, t[a..b], m) <==> HasShape(p, t, Shifted(m, a))
  {
    var s, e := m.range.location, m.range.End();
    if |m.left| + |m.right| <= m.range.length {
      SliceOfSlice(t, a, b, s, s + |m.left|);
      SliceOfSlice(t, a, b, e - |m.right|, e);
      SliceOfSlice(t, a, b, s + |m.left|, e - |m.right|);
    }
  }

  /** A match found in the whole text is found again, at the start, when the
      search is confined to the characters it covers: it does not depend on
      anything outside its own range. */
  lemma MatchAtInOwnRange(p: Pattern, t: string, i: nat)
    requires i <= |t| && MatchAt(p, t, i).Some?
    ensures var m := MatchAt(p, t, i).value;
      MatchAt(p, t[i..m.range.End()], 0) == Some(Match(Range(0, m.range.length), m.left, m.right))
    decreases if p == Joined then 1 else 0
  {
    var m := MatchAt(p, t, i).value;
    var e := m.range.End();
    var sub := t[i..e];
    var m0 := Match(Range(0, m.range.length), m.left, m.right);
    if p == Joined {
      if LeftOfColonAt(t, i).Some? {
        MatchAtInOwnRange(SpacingLeftOfColon, t, i);
      } else {
        MatchAtInOwnRange(SpacingRightOfColon, t, i);
        if LeftOfColonAt(sub, 0).Some? {
          var m1 := LeftOfColonAt(sub, 0).value;
          LeftOfColonSound(sub, 0);
          ShapeInSlice(SpacingLeftOfColon, t, i, e, m1);
          MatchAtComplete(SpacingLeftOfColon, t, Shifted(m1, i));
        }
      }
    } else {
      MatchAtSound(p, t, i);
      assert Shifted(m0, i) == m;
      ShapeInSlice(p, t, i, e, m0);
      MatchAtComplete(p, sub, m0);
    }
  }
}
