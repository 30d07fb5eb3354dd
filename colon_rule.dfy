/** The colon rule: a colon in a type annotation sits right after the
    identifier and is followed by exactly one space. It finds candidate spans
    with the two patterns, keeps those the syntax classifier says are an
    identifier followed by a type outside comments and strings, reports one
    violation per kept span, and can rewrite each kept span to
    `identifier: Type`. */
module ColonRule {
  import opened Wrappers
  import opened Characters
  import opened ColonPatterns
  import opened Replacement
  import opened SyntaxKinds

  /** The rule's identity, carried by every violation and correction. */
  const RuleIdentifier: string := "colon"

  datatype StyleViolation = StyleViolation(rule: string, location: nat)

  datatype Correction = Correction(rule: string, location: nat)

  /** The syntax kinds of the tokens in a range of a text, as the classifier
      reports them for that snapshot of the text. */
  type Classifier = (string, Range) -> seq<SyntaxKind>

  predicate StartsWith<T(==)>(s: seq<T>, prefix: seq<T>) {
    |prefix| <= |s| && s[..|prefix|] == prefix
  }

  /** The acceptance test applied to the kinds covering a raw match. */
  function Accepts(kinds: seq<SyntaxKind>): (ok: bool)
    ensures ok <==>
      && 2 <= |kinds| && kinds[0] == Identifier && kinds[1] == Typeidentifier
      && forall k :: 0 <= k < |kinds| ==> kinds[k] !in CommentAndStringKinds()
  {
    if !StartsWith(kinds, [Identifier, Typeidentifier]) then false
    else if |(set k | k in kinds) * CommentAndStringKinds()| > 0 then false
    else true
  }

  /** `a` is `b` with some elements left out, the rest in their order. */
  predicate IsSubsequence<T(==)>(a: seq<T>, b: seq<T>)
    decreases |b|
  {
    if a == [] then true
    else if b == [] then false
    else if a[0] == b[0] then IsSubsequence(a[1..], b[1..])
    else IsSubsequence(a, b[1..])
  }

  /** A subsequence of the tail of `b` is a subsequence of `b`. */
  lemma {:induction false} SubsequenceOfTail<T>(a: seq<T>, b: seq<T>)
    requires b != [] && IsSubsequence(a, b[1..])
    ensures IsSubsequence(a, b)
    decreases |b|, 0
  {
    if a != [] && a[0] == b[0] {
      SubsequenceDropHead(a, b[1..]);
    }
  }

  /** Leaving out the first element of a subsequence keeps a subsequence. */
  lemma {:induction false} SubsequenceDropHead<T>(a: seq<T>, c: seq<T>)
    requires a != [] && IsSubsequence(a, c)
    ensures IsSubsequence(a[1..], c)
    decreases |c|, 1
  {
    if a[0] == c[0] {
      SubsequenceOfTail(a[1..], c);
    } else {
      SubsequenceDropHead(a, c[1..]);
      SubsequenceOfTail(a[1..], c);
    }
  }

  /** The matches whose covering kinds the classifier accepts, in their
      original order. */
  function Filter(t: string, ms: seq<Match>, classify: Classifier): (r: seq<Match>)
    ensures forall m {:trigger m in r} :: m in r <==> m in ms && Accepts(classify(t, m.range))
    ensures IsSubsequence(r, ms)
    ensures Ordered(t, ms) ==> Ordered(t, r)
  {
    if ms == [] then []
    else
      var rest := Filter(t, ms[1..], classify);
      OrderedTail(t, ms);
      if Accepts(classify(t, ms[0].range)) then
        OrderedCons(t, ms, rest);
        assert ([ms[0]] + rest)[1..] == rest;
        [ms[0]] + rest
      else
        SubsequenceOfTail(rest, ms);
        rest
  }

  lemma OrderedTail(t: string, ms: seq<Match>)
    requires ms != []
    ensures Ordered(t, ms) ==> Ordered(t, ms[1..])
  {
  }

  /** Putting the first match back in front of matches taken from the rest
      keeps them ordered. */
  lemma OrderedCons(t: string, ms: seq<Match>, rest: seq<Match>)
    requires ms != [] && forall m :: m in rest ==> m in ms[1..]
    requires Ordered(t, ms) ==> Ordered(t, rest)
    ensures Ordered(t, ms) ==> Ordered(t, [ms[0]] + rest)
  {
    if Ordered(t, ms) {
      var r := [ms[0]] + rest;
      forall j, k | 0 <= j < k < |r| ensures r[j].range.End() <= r[k].range.location {
        if j == 0 {
          assert r[k] in ms[1..];
          var i :| 0 <= i < |ms[1..]| && ms[1..][i] == r[k];
          assert ms[i + 1] == r[k];
        } else {
          assert r[j] == rest[j - 1] && r[k] == rest[k - 1];
        }
      }
      forall k | 0 <= k < |r| ensures 0 < r[k].range.length && r[k].range.End() <= |t| {
        if k > 0 {
          assert r[k] == rest[k - 1];
        }
      }
    }
  }

  /** The raw matches of a pattern that the classifier accepts, in text
      order. */
  function ValidMatches(p: Pattern, t: string, classify: Classifier): (ms: seq<Match>)
    ensures Ordered(t, ms)
    ensures IsSubsequence(ms, Matches(p, t))
    ensures forall m {:trigger m in ms} :: m in ms <==> m in Matches(p, t) && Accepts(classify(t, m.range))
  {
    Filter(t, Matches(p, t), classify)
  }

  /** One violation per accepted match of the two patterns joined by `|`,
      at the match's start, in text order. */
  function ValidateFile(t: string, classify: Classifier): (vs: seq<StyleViolation>)
    ensures var ms := ValidMatches(Joined, t, classify);
      && |vs| == |ms|
      && forall k :: 0 <= k < |ms| ==> vs[k] == StyleViolation(RuleIdentifier, ms[k].range.location)
  {
    var ms := ValidMatches(Joined, t, classify);
    seq(|ms|, k requires 0 <= k < |ms| => StyleViolation(RuleIdentifier, ms[k].range.location))
  }

  /** Violations are reported at strictly increasing offsets, so no offset is
      reported twice. */
  lemma ViolationsAscend(t: string, classify: Classifier)
    ensures var vs := ValidateFile(t, classify);
      forall j, k :: 0 <= j < k < |vs| ==> vs[j].location < vs[k].location
  {
  }

  /** Violations built one per match, at the match's start, sit at exactly
      the offsets where the matches start. */
  lemma ViolationAtMatchStart(vs: seq<StyleViolation>, ms: seq<Match>, x: nat)
    requires |vs| == |ms|
    requires forall k :: 0 <= k < |ms| ==> vs[k] == StyleViolation(RuleIdentifier, ms[k].range.location)
    ensures (exists v :: v in vs && v.location == x) <==> (exists m :: m in ms && m.range.location == x)
  {
    if v :| v in vs && v.location == x {
      var k :| 0 <= k < |vs| && vs[k] == v;
      assert ms[k] in ms;
    }
    if m :| m in ms && m.range.location == x {
      var k :| 0 <= k < |ms| && ms[k] == m;
      assert vs[k] in vs;
    }
  }

  /** A violation is reported at offset `x` exactly when a match of the
      joined pattern starts at `x` and the classifier accepts its kinds. */
  lemma ViolationIffAcceptedMatch(t: string, classify: Classifier, x: nat)
    ensures (exists v :: v in ValidateFile(t, classify) && v.location == x)
        <==> (exists m :: m in Matches(Joined, t) && m.range.location == x && Accepts(classify(t, m.range)))
  {
    var all := Matches(Joined, t);
    var ms := ValidMatches(Joined, t, classify);
    ViolationAtMatchStart(ValidateFile(t, classify), ms, x);
    if m :| m in all && m.range.location == x && Accepts(classify(t, m.range)) {
      assert m in ms;
    }
  }

  /** A match that the classifier places in a comment or a string is never
      reported and never rewritten. */
  lemma CommentOrStringIgnored(p: Pattern, t: string, classify: Classifier, m: Match)
    requires exists k :: 0 <= k < |classify(t, m.range)| && classify(t, m.range)[k] in CommentAndStringKinds()
    ensures m !in ValidMatches(p, t, classify)
  {
  }

  /** The text around a match inside a text whose prefix up to `b` is
      still the original. */
  lemma PrefixSlices(t: string, rest: string, u: string, s: nat, e: nat, b: nat)
    requires s <= e <= b <= |t| && u == t[..b] + rest
    ensures u[..s] == t[..s] && u[s..e] == t[s..e] && u[e..] == t[e..b] + rest
  {
  }

  /** Putting a replacement for `u[s..e]` in place, in the terms of the
      original text. */
  lemma Reassemble(t: string, rest: string, u: string, s: nat, e: nat, b: nat, x: string)
    requires s <= e <= b <= |t| && u == t[..b] + rest
    ensures u[..s] + x + u[e..] == t[..s] + (x + t[e..b] + rest)
  {
    PrefixSlices(t, rest, u, s, e, b);
  }

  /** A match ends no later than the next match starts, or the text ends. */
  lemma EndBeforeBound(t: string, ms: seq<Match>, i: nat)
    requires Ordered(t, ms) && i < |ms|
    ensures ms[i].range.End() <= Bound(t, ms, i + 1) <= |t|
    ensures Bound(t, ms, i) == ms[i].range.location
  {
  }

  /** Rewriting the `i`-th of the ordered matches in a text where only the
      matches after it have been rewritten: the characters of its range are
      still those of the original text, so the confined replacement rewrites
      exactly that match. */
  lemma RewriteStep(p: Pattern, t: string, ms: seq<Match>, i: nat, u: string)
    requires p != Joined && Ordered(t, ms) && i < |ms|
    requires MatchAt(p, t, ms[i].range.location) == Some(ms[i])
    requires u == t[..Bound(t, ms, i + 1)] + SplicedFrom(t, ms, i + 1)
    ensures ms[i].range.End() <= |u|
    ensures ReplaceInRange(p, u, ms[i].range) == t[..Bound(t, ms, i)] + SplicedFrom(t, ms, i)
  {
    var m := ms[i];
    var s, e, b := m.range.location, m.range.End(), Bound(t, ms, i + 1);
    var rest := SplicedFrom(t, ms, i + 1);
    EndBeforeBound(t, ms, i);
    PrefixSlices(t, rest, u, s, e, b);
    ReplaceInMatchRange(p, t, u, s);
    Reassemble(t, rest, u, s, e, b, Template(m));
  }

  /** Before any match is rewritten, the text is the original. */
  lemma NothingRewrittenYet(t: string, ms: seq<Match>)
    requires Ordered(t, ms)
    ensures t == t[..Bound(t, ms, |ms|)] + SplicedFrom(t, ms, |ms|)
  {
  }

  /** Listing ordered matches from the last to the first gives strictly
      decreasing start offsets. */
  lemma ReversedDescend(t: string, ms: seq<Match>, cs: seq<Correction>)
    requires Ordered(t, ms) && |cs| == |ms|
    requires forall k :: 0 <= k < |ms| ==> cs[k] == Correction(RuleIdentifier, ms[|ms| - 1 - k].range.location)
    ensures forall j, k :: 0 <= j < k < |cs| ==> cs[k].location < cs[j].location
  {
    forall j, k | 0 <= j < k < |cs| ensures cs[k].location < cs[j].location {
      var a, b := |ms| - 1 - k, |ms| - 1 - j;
      assert ms[a].range.End() <= ms[b].range.location;
    }
  }

  /** Every match in `ms` is the match of `p` at its own start. */
  ghost predicate FoundBy(p: Pattern, t: string, ms: seq<Match>) {
    forall k :: 0 <= k < |ms| ==> ms[k].range.location <= |t| && MatchAt(p, t, ms[k].range.location) == Some(ms[k])
  }

  /** The accepted matches are matches of the pattern at their own start. */
  lemma ValidMatchesFoundBy(p: Pattern, t: string, classify: Classifier)
    ensures FoundBy(p, t, ValidMatches(p, t, classify))
  {
    var ms := ValidMatches(p, t, classify);
    var all := Matches(p, t);
    forall k | 0 <= k < |ms|
      ensures ms[k].range.location <= |t| && MatchAt(p, t, ms[k].range.location) == Some(ms[k])
    {
      assert ms[k] in ms;
      assert ms[k] in all;
      var j :| 0 <= j < |all| && all[j] == ms[k];
    }
  }

  /** Where a match was rewritten, the rewritten text no longer matches any
      pattern: each template stands at its match's offset moved by the
      growth of the earlier matches, and a template never starts a match. */
  lemma RewrittenMatchIsClean(p: Pattern, q: Pattern, t: string, ms: seq<Match>, k: nat)
    requires Ordered(t, ms) && FoundBy(q, t, ms) && k < |ms|
    ensures var o := ms[k].range.location + Growth(ms, k);
      0 <= o <= |Spliced(t, ms)| && MatchAt(p, Spliced(t, ms), o).None?
  {
    var m := ms[k];
    assert 0 < |m.left| && AllIn(m.left, Word) && 0 < |m.right| && !IsSpace(m.right[0]) by {
      MatchAtSound(q, t, m.range.location);
    }
    SplicedTemplateIsClean(p, t, ms, k);
  }

  /** One correction per match, at its start, the last match first. */
  function CorrectionsFor(ms: seq<Match>): seq<Correction> {
    if ms == [] then [] else CorrectionsFor(ms[1..]) + [Correction(RuleIdentifier, ms[0].range.location)]
  }

  /** The `k`-th correction is the one for the `k`-th match from the end. */
  lemma {:induction false} CorrectionsForReversed(ms: seq<Match>)
    ensures |CorrectionsFor(ms)| == |ms|
    ensures forall k :: 0 <= k < |ms| ==>
      CorrectionsFor(ms)[k] == Correction(RuleIdentifier, ms[|ms| - 1 - k].range.location)
  {
    if ms != [] {
      CorrectionsForReversed(ms[1..]);
    }
  }

  /** The loop of `correctFile(file, withPattern:)` over the accepted matches
      taken from the last to the first: each is rewritten by a replacement
      confined to its range, and each yields a correction at its offset. */
  method RewriteFromLast(p: Pattern, t: string, matches: seq<Match>)
    returns (corrections: seq<Correction>, contents: string)
    requires p != Joined && Ordered(t, matches) && FoundBy(p, t, matches)
    ensures corrections == CorrectionsFor(matches)
    ensures contents == Spliced(t, matches)
    ensures |corrections| == |matches|
    ensures forall k :: 0 <= k < |matches| ==>
      corrections[k] == Correction(RuleIdentifier, matches[|matches| - 1 - k].range.location)
    ensures forall j, k :: 0 <= j < k < |corrections| ==> corrections[k].location < corrections[j].location
  {
    corrections := [];
    contents := t;
    var i := |matches|;
    NothingRewrittenYet(t, matches);
    while i > 0
      invariant 0 <= i <= |matches|
      invariant contents == t[..Bound(t, matches, i)] + SplicedFrom(t, matches, i)
      invariant corrections == CorrectionsFor(matches[i..])
    {
      i := i - 1;
      var range := matches[i].range;
      RewriteStep(p, t, matches, i, contents);
      contents := ReplaceInRange(p, contents, range);
      assert matches[i..][1..] == matches[i + 1..];
      corrections := corrections + [Correction(RuleIdentifier, range.location)];
    }
    assert matches[0..] == matches;
    CorrectionsForReversed(matches);
    ReversedDescend(t, matches, corrections);
  }

  /** `correctFile(file, withPattern:)`: with no accepted match nothing is
      corrected and nothing is written; otherwise the accepted matches are
      rewritten from the last to the first and the text is written once at
      the end. The written text is the original with every accepted match
      replaced by its template, offsets taken in the original, and the
      corrections carry the original offsets in decreasing order. */
  method CorrectWithPattern(p: Pattern, t: string, classify: Classifier)
    returns (corrections: seq<Correction>, written: Option<string>)
    requires p != Joined
    ensures var ms := ValidMatches(p, t, classify);
      && corrections == CorrectionsFor(ms)
      && |corrections| == |ms|
      && (forall k :: 0 <= k < |ms| ==> corrections[k] == Correction(RuleIdentifier, ms[|ms| - 1 - k].range.location))
      && (written.Some? <==> ms != [])
      && (written.Some? ==> written.value == Spliced(t, ms))
    ensures forall j, k :: 0 <= j < k < |corrections| ==> corrections[k].location < corrections[j].location
  {
    var matches := ValidMatches(p, t, classify);
    if matches == [] {
      return [], None;
    }
    ValidMatchesFoundBy(p, t, classify);
    var contents;
    corrections, contents := RewriteFromLast(p, t, matches);
    written := Some(contents);
  }

  /** The text after one pass of `correctFile(file, withPattern:)`: rewritten
      when the pattern had an accepted match, unchanged otherwise. */
  function AfterPass(p: Pattern, t: string, classify: Classifier): string {
    var ms := ValidMatches(p, t, classify);
    if ms == [] then t else Spliced(t, ms)
  }

  /** The corrections `correctFile(file)` reports: those of the
      left-of-colon pass, then those of the right-of-colon pass over the text
      the first pass left. */
  function CorrectFileCorrections(t: string, classify: Classifier): seq<Correction> {
    var t1 := AfterPass(SpacingLeftOfColon, t, classify);
    CorrectionsFor(ValidMatches(SpacingLeftOfColon, t, classify))
      + CorrectionsFor(ValidMatches(SpacingRightOfColon, t1, classify))
  }

  /** The texts `correctFile(file)` writes, in order: one per pass that
      rewrote something. */
  function CorrectFileWrites(t: string, classify: Classifier): seq<string> {
    var t1 := AfterPass(SpacingLeftOfColon, t, classify);
    (if ValidMatches(SpacingLeftOfColon, t, classify) == [] then [] else [t1])
      + (if ValidMatches(SpacingRightOfColon, t1, classify) == [] then []
         else [AfterPass(SpacingRightOfColon, t1, classify)])
  }

  /** `correctFile(file)`: the left-of-colon pass runs first, then the
      right-of-colon pass runs on the text the first pass left (classified
      afresh), and their corrections are concatenated. The file is written
      once by each pass that rewrote something, so it is written exactly
      when some correction is reported. */
  method CorrectFile(t: string, classify: Classifier)
    returns (corrections: seq<Correction>, writes: seq<string>)
    ensures corrections == CorrectFileCorrections(t, classify)
    ensures writes == CorrectFileWrites(t, classify)
    ensures corrections == [] <==> writes == []
  {
    var patterns := Patterns();
    var first, written1 := CorrectWithPattern(patterns[0], t, classify);
    var contents := if written1.Some? then written1.value else t;
    var second, written2 := CorrectWithPattern(patterns[1], contents, classify);
    corrections := first + second;
    writes := (if written1.Some? then [written1.value] else [])
            + (if written2.Some? then [written2.value] else []);
  }
}
