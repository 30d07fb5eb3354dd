/** Replacing matches by the template `$1: $2`, in two forms: all matches at
    once with offsets taken in the original text (the reference), and the
    replacement NSRegularExpression performs when confined to one range of a
    text (the step the corrector repeats). */
module Replacement {
  import opened Wrappers
  import opened Characters
  import opened ColonPatterns

  /** The template `$1: $2`: the left capture, a colon, one space and the
      right capture. */
  function Template(m: Match): (r: string)
    ensures |r| == |m.left| + 2 + |m.right|
    ensures r[|m.left|] == ':' && r[|m.left| + 1] == ' '
  {
    m.left + ": " + m.right
  }

  /** The template is the form the rule asks for: in any text where it
      stands at `j`, no pattern matches at `j`, since the colon follows the
      word directly and exactly one space follows the colon. */
  lemma TemplateIsClean(p: Pattern, s: string, j: nat, m: Match)
    requires 0 < |m.left| && AllIn(m.left, Word)
    requires 0 < |m.right| && !IsSpace(m.right[0])
    requires j + |Template(m)| <= |s| && s[j..j + |Template(m)|] == Template(m)
    ensures MatchAt(p, s, j).None?
  {
    var x := Template(m);
    var w := j + |m.left|;
    assert s[j..w] == x[..|m.left|] == m.left;
    assert s[w] == x[|m.left|] == ':';
    assert s[w + 1] == x[|m.left| + 1] == ' ';
    assert s[w + 2] == x[|m.left| + 2] == m.right[0];
    RunEndUnique(s, j, Word, w);
    RunEndUnique(s, w, Space, w);
    assert s[w + 1..w + 2] == [' '];
    RunEndUnique(s, w + 1, Space, w + 2);
  }

  /** Where the `k`-th match starts, or the end of the text past the last
      one. */
  function Bound(t: string, ms: seq<Match>, k: nat): nat {
    if k < |ms| then ms[k].range.location else |t|
  }

  /** The text from the start of `ms[k]` on, with `ms[k]` and every later
      match replaced by its template and the text between them kept. */
  function SplicedFrom(t: string, ms: seq<Match>, k: nat): string
    requires Ordered(t, ms) && k <= |ms|
    decreases |ms| - k
  {
    if k == |ms| then ""
    else Template(ms[k]) + t[ms[k].range.End()..Bound(t, ms, k + 1)] + SplicedFrom(t, ms, k + 1)
  }

  /** `t` with every match of `ms` replaced by its template, all offsets
      taken in `t` itself. */
  function Spliced(t: string, ms: seq<Match>): string
    requires Ordered(t, ms)
  {
    t[..Bound(t, ms, 0)] + SplicedFrom(t, ms, 0)
  }

  /** How much longer the text gets from replacing the first `k` matches:
      each replacement adds its template's length and removes its match's. */
  function Growth(ms: seq<Match>, k: nat): int
    requires k <= |ms|
  {
    if k == 0 then 0 else Growth(ms, k - 1) + |Template(ms[k - 1])| - ms[k - 1].range.length
  }

  /** Where the text between match `k - 1` and match `k` starts: the end of
      match `k - 1`, or the start of the text. */
  function GapStart(ms: seq<Match>, k: nat): nat
    requires k <= |ms|
  {
    if k == 0 then 0 else ms[k - 1].range.End()
  }

  /** The replaced text up to the start of match `k`. */
  function SplicedUpTo(t: string, ms: seq<Match>, k: nat): (r: string)
    requires Ordered(t, ms) && k <= |ms|
    ensures |r| == Bound(t, ms, k) + Growth(ms, k)
  {
    if k == 0 then t[..Bound(t, ms, 0)]
    else SplicedUpTo(t, ms, k - 1) + Template(ms[k - 1]) + t[ms[k - 1].range.End()..Bound(t, ms, k)]
  }

  /** The replaced text is the part up to match `k` followed by the part
      from match `k` on. */
  lemma {:induction false} SplicedSplit(t: string, ms: seq<Match>, k: nat)
    requires Ordered(t, ms) && k <= |ms|
    ensures Spliced(t, ms) == SplicedUpTo(t, ms, k) + SplicedFrom(t, ms, k)
  {
    if k > 0 {
      SplicedSplit(t, ms, k - 1);
      var gap := t[ms[k - 1].range.End()..Bound(t, ms, k)];
      assert SplicedFrom(t, ms, k - 1) == Template(ms[k - 1]) + gap + SplicedFrom(t, ms, k);
      assert SplicedUpTo(t, ms, k) == SplicedUpTo(t, ms, k - 1) + Template(ms[k - 1]) + gap;
      Regroup(SplicedUpTo(t, ms, k - 1), Template(ms[k - 1]), gap, SplicedFrom(t, ms, k));
    }
  }

  lemma Regroup(a: string, b: string, c: string, d: string)
    ensures a + (b + c + d) == (a + b + c) + d
  {
  }

  /** The length of the replaced text. */
  lemma SplicedLength(t: string, ms: seq<Match>)
    requires Ordered(t, ms)
    ensures |Spliced(t, ms)| == |t| + Growth(ms, |ms|)
  {
    SplicedSplit(t, ms, |ms|);
  }

  /** Every match's template stands in the replaced text where the match
      started, moved by the growth of the matches before it. */
  lemma TemplateInPlace(t: string, ms: seq<Match>, k: nat)
    requires Ordered(t, ms) && k < |ms|
    ensures var o := ms[k].range.location + Growth(ms, k);
      0 <= o && o + |Template(ms[k])| <= |Spliced(t, ms)| && Spliced(t, ms)[o..o + |Template(ms[k])|] == Template(ms[k])
  {
    var o := TemplateOffset(t, ms, k);
  }

  /** The part from match `k` on starts with match `k`'s template. */
  lemma SplicedFromRest(t: string, ms: seq<Match>, k: nat) returns (w: string)
    requires Ordered(t, ms) && k < |ms|
    ensures SplicedFrom(t, ms, k) == Template(ms[k]) + w
  {
    w := t[ms[k].range.End()..Bound(t, ms, k + 1)] + SplicedFrom(t, ms, k + 1);
  }

  lemma PlaceAt(s: string, u: string, x: string, w: string, o: int)
    requires s == u + (x + w) && o == |u|
    ensures 0 <= o && o + |x| <= |s| && s[o..o + |x|] == x
  {
    assert s[o..] == x + w;
  }

  /** TemplateInPlace with the offset as a natural number. */
  lemma TemplateOffset(t: string, ms: seq<Match>, k: nat) returns (o: nat)
    requires Ordered(t, ms) && k < |ms|
    ensures o == ms[k].range.location + Growth(ms, k)
    ensures o + |Template(ms[k])| <= |Spliced(t, ms)| && Spliced(t, ms)[o..o + |Template(ms[k])|] == Template(ms[k])
  {
    var s, u, x := Spliced(t, ms), SplicedUpTo(t, ms, k), Template(ms[k]);
    var w := SplicedFromRest(t, ms, k);
    assert s == u + (x + w) by {
      SplicedSplit(t, ms, k);
    }
    o := |u|;
    PlaceAt(s, u, x, w, o);
  }

  /** No pattern matches where a template stands in the replaced text. */
  lemma SplicedTemplateIsClean(p: Pattern, t: string, ms: seq<Match>, k: nat)
    requires Ordered(t, ms) && k < |ms|
    requires 0 < |ms[k].left| && AllIn(ms[k].left, Word)
    requires 0 < |ms[k].right| && !IsSpace(ms[k].right[0])
    ensures var o := ms[k].range.location + Growth(ms, k);
      0 <= o <= |Spliced(t, ms)| && MatchAt(p, Spliced(t, ms), o).None?
  {
    var o := TemplateOffset(t, ms, k);
    TemplateIsClean(p, Spliced(t, ms), o, ms[k]);
  }

  /** Every character outside the matches is kept, moved by the growth of
      the matches before it. */
  lemma GapKept(t: string, ms: seq<Match>, k: nat, x: nat)
    requires Ordered(t, ms) && k <= |ms|
    requires GapStart(ms, k) <= x < Bound(t, ms, k)
    ensures 0 <= x + Growth(ms, k) < |Spliced(t, ms)|
    ensures Spliced(t, ms)[x + Growth(ms, k)] == t[x]
  {
    SplicedSplit(t, ms, k);
    if k > 0 {
      var before := SplicedUpTo(t, ms, k - 1) + Template(ms[k - 1]);
      var gap := t[ms[k - 1].range.End()..Bound(t, ms, k)];
      assert SplicedUpTo(t, ms, k) == before + gap;
      assert |before| == ms[k - 1].range.End() + Growth(ms, k);
      assert SplicedUpTo(t, ms, k)[x + Growth(ms, k)] == gap[x - ms[k - 1].range.End()];
    }
  }

  /** NSRegularExpression's replacement confined to the range `r` of `u`:
      the search sees only the characters inside the range, every match it
      finds there is replaced by the template, and the text outside the range
      is kept. */
  function ReplaceInRange(p: Pattern, u: string, r: Range): (v: string)
    requires p != Joined && r.End() <= |u|
    ensures r.location <= |v| && v[..r.location] == u[..r.location]
    ensures |u| - r.End() <= |v| && v[|v| - (|u| - r.End())..] == u[r.End()..]
  {
    var sub := u[r.location..r.End()];
    u[..r.location] + Spliced(sub, Matches(p, sub)) + u[r.End()..]
  }

  /** Confining the replacement to the range of a match found in `t`
      rewrites exactly that match to its template, in any text `u` that holds
      the same characters in that range. */
  lemma ReplaceInMatchRange(p: Pattern, t: string, u: string, i: nat)
    requires p != Joined && i <= |t| && MatchAt(p, t, i).Some?
    requires MatchAt(p, t, i).value.range.End() <= |u|
    requires u[i..MatchAt(p, t, i).value.range.End()] == t[i..MatchAt(p, t, i).value.range.End()]
    ensures var m := MatchAt(p, t, i).value;
      ReplaceInRange(p, u, m.range) == u[..i] + Template(m) + u[m.range.End()..]
  {
    var m := MatchAt(p, t, i).value;
    var e := m.range.End();
    var m0 := Match(Range(0, m.range.length), m.left, m.right);
    MatchAtInOwnRange(p, t, i);
    assert u[i..e] == t[i..e];
    OnlyMatchInOwnRange(p, u[i..e], m0);
  }

  /** A text that is one whole match is replaced by that match's template. */
  lemma OnlyMatchInOwnRange(p: Pattern, sub: string, m0: Match)
    requires MatchAt(p, sub, 0) == Some(m0) && m0.range.End() == |sub|
    ensures Spliced(sub, Matches(p, sub)) == Template(m0)
  {
    assert Scan(p, sub, |sub|) == [];
    assert Matches(p, sub) == [m0];
    assert SplicedFrom(sub, [m0], 1) == "";
  }
}
