/** Examples from the rule's description, worked through the model. The
    per-position lemmas below evaluate the two patterns at every word of an
    example text; the scan lemmas then assemble the matches from them. */
module ColonRuleExamples {
  import opened Wrappers
  import opened Characters
  import opened ColonPatterns
  import opened Replacement
  import opened SyntaxKinds
  import opened ColonRule

  // ---- Evaluating a search over a concrete text

  /** A search that finds a match at `i` continues where the match ends. */
  lemma TakeMatch(p: Pattern, t: string, i: nat)
    requires i < |t| && MatchAt(p, t, i).Some?
    ensures Scan(p, t, i) == [MatchAt(p, t, i).value] + Scan(p, t, MatchAt(p, t, i).value.range.End())
  {
  }

  // ---- "let abc: Void\n"

  /** `let abc: Void`, a type annotation written as the rule asks. */
  const Tight: string := "let abc: Void\n"

  lemma TightAt0()
    ensures IsWordChar(Tight[0]) && RunEnd(Tight, 0, Word) == 3
    ensures LeftOfColonAt(Tight, 0) == None
    ensures RightOfColonAt(Tight, 0) == None
  {
    assert RunEnd(Tight, 3, Word) == 3;
    assert RunEnd(Tight, 2, Word) == 3;
    assert RunEnd(Tight, 1, Word) == 3;
    assert RunEnd(Tight, 0, Word) == 3;
    assert RunEnd(Tight, 4, Space) == 4;
    assert RunEnd(Tight, 3, Space) == 4;
  }

  lemma TightAt4()
    ensures IsWordChar(Tight[4]) && RunEnd(Tight, 4, Word) == 7
    ensures LeftOfColonAt(Tight, 4) == None
    ensures RightOfColonAt(Tight, 4) == None
  {
    assert RunEnd(Tight, 7, Word) == 7;
    assert RunEnd(Tight, 6, Word) == 7;
    assert RunEnd(Tight, 5, Word) == 7;
    assert RunEnd(Tight, 4, Word) == 7;
    assert RunEnd(Tight, 9, Space) == 9;
    assert RunEnd(Tight, 8, Space) == 9;
  }

  lemma TightGaps()
    ensures |Tight| == 14
    ensures NoWordIn(Tight, 3, 4)
    ensures NoWordIn(Tight, 7, 9)
    ensures ':' !in Tight[9..]
  {
    assert NoWordIn(Tight, 4, 4);
    assert NoWordIn(Tight, 3, 4);
    assert NoWordIn(Tight, 9, 9);
    assert NoWordIn(Tight, 8, 9);
    assert NoWordIn(Tight, 7, 9);
    assert Tight[9..] == "Void\n";
  }

  lemma ScanTight(p: Pattern, t: string)
    requires |t| == 14
    requires IsWordChar(t[0]) && RunEnd(t, 0, Word) == 3 && MatchAt(p, t, 0).None?
    requires NoWordIn(t, 3, 4)
    requires IsWordChar(t[4]) && RunEnd(t, 4, Word) == 7 && MatchAt(p, t, 4).None?
    requires NoWordIn(t, 7, 9)
    requires ':' !in t[9..]
    ensures Scan(p, t, 0) == []
  {
    SkipWord(p, t, 0);
    SkipNonWords(p, t, 3, 4);
    SkipWord(p, t, 4);
    SkipNonWords(p, t, 7, 9);
    NoColonNoMatches(p, t, 9);
  }

  lemma TightLeftMatches()
    ensures Matches(SpacingLeftOfColon, Tight) == []
  {
    TightAt0();
    TightAt4();
    TightGaps();
    ScanTight(SpacingLeftOfColon, Tight);
  }

  lemma TightRightMatches()
    ensures Matches(SpacingRightOfColon, Tight) == []
  {
    TightAt0();
    TightAt4();
    TightGaps();
    ScanTight(SpacingRightOfColon, Tight);
  }

  // ---- "let abc : Void\n"

  /** `let abc : Void`: white space on both sides of the colon. */
  const Spaced: string := "let abc : Void\n"

  lemma SpacedAt0()
    ensures IsWordChar(Spaced[0]) && RunEnd(Spaced, 0, Word) == 3
    ensures LeftOfColonAt(Spaced, 0) == None
    ensures RightOfColonAt(Spaced, 0) == None
  {
    assert RunEnd(Spaced, 3, Word) == 3;
    assert RunEnd(Spaced, 2, Word) == 3;
    assert RunEnd(Spaced, 1, Word) == 3;
    assert RunEnd(Spaced, 0, Word) == 3;
    assert RunEnd(Spaced, 4, Space) == 4;
    assert RunEnd(Spaced, 3, Space) == 4;
  }

  lemma SpacedAt4()
    ensures IsWordChar(Spaced[4]) && RunEnd(Spaced, 4, Word) == 7
    ensures LeftOfColonAt(Spaced, 4) == Some(Match(Range(4, 7), "abc", "V"))
    ensures RightOfColonAt(Spaced, 4) == None
  {
    assert RunEnd(Spaced, 7, Word) == 7;
    assert RunEnd(Spaced, 6, Word) == 7;
    assert RunEnd(Spaced, 5, Word) == 7;
    assert RunEnd(Spaced, 4, Word) == 7;
    assert RunEnd(Spaced, 8, Space) == 8;
    assert RunEnd(Spaced, 7, Space) == 8;
    assert RunEnd(Spaced, 10, Space) == 10;
    assert RunEnd(Spaced, 9, Space) == 10;
    assert Spaced[4..7] == "abc";
    assert Spaced[10..11] == "V";
  }

  lemma SpacedGaps()
    ensures |Spaced| == 15
    ensures NoWordIn(Spaced, 3, 4)
    ensures ':' !in Spaced[11..]
  {
    assert NoWordIn(Spaced, 4, 4);
    assert NoWordIn(Spaced, 3, 4);
    assert Spaced[11..] == "oid\n";
  }

  lemma ScanSpaced(p: Pattern, t: string)
    requires |t| == 15
    requires IsWordChar(t[0]) && RunEnd(t, 0, Word) == 3 && MatchAt(p, t, 0).None?
    requires NoWordIn(t, 3, 4)
    requires MatchAt(p, t, 4) == Some(Match(Range(4, 7), "abc", "V"))
    requires ':' !in t[11..]
    ensures Scan(p, t, 0) == [Match(Range(4, 7), "abc", "V")]
  {
    SkipWord(p, t, 0);
    SkipNonWords(p, t, 3, 4);
    TakeMatch(p, t, 4);
    NoColonNoMatches(p, t, 11);
  }

  lemma SpacedLeftMatches()
    ensures Matches(SpacingLeftOfColon, Spaced) == [Match(Range(4, 7), "abc", "V")]
  {
    SpacedAt0();
    SpacedAt4();
    SpacedGaps();
    ScanSpaced(SpacingLeftOfColon, Spaced);
  }

  lemma SpacedJoinedMatches()
    ensures Matches(Joined, Spaced) == [Match(Range(4, 7), "abc", "V")]
  {
    SpacedAt0();
    SpacedAt4();
    SpacedGaps();
    ScanSpaced(Joined, Spaced);
  }

  // ---- "let abc:Void\n"

  /** `let abc:Void`: no white space after the colon. */
  const Unspaced: string := "let abc:Void\n"

  lemma UnspacedAt0()
    ensures IsWordChar(Unspaced[0]) && RunEnd(Unspaced, 0, Word) == 3
    ensures LeftOfColonAt(Unspaced, 0) == None
    ensures RightOfColonAt(Unspaced, 0) == None
  {
    assert RunEnd(Unspaced, 3, Word) == 3;
    assert RunEnd(Unspaced, 2, Word) == 3;
    assert RunEnd(Unspaced, 1, Word) == 3;
    assert RunEnd(Unspaced, 0, Word) == 3;
    assert RunEnd(Unspaced, 4, Space) == 4;
    assert RunEnd(Unspaced, 3, Space) == 4;
  }

  lemma UnspacedAt4()
    ensures IsWordChar(Unspaced[4]) && RunEnd(Unspaced, 4, Word) == 7
    ensures LeftOfColonAt(Unspaced, 4) == None
    ensures RightOfColonAt(Unspaced, 4) == Some(Match(Range(4, 5), "abc", "V"))
  {
    assert RunEnd(Unspaced, 7, Word) == 7;
    assert RunEnd(Unspaced, 6, Word) == 7;
    assert RunEnd(Unspaced, 5, Word) == 7;
    assert RunEnd(Unspaced, 4, Word) == 7;
    assert RunEnd(Unspaced, 8, Space) == 8;
    assert Unspaced[4..7] == "abc";
    assert Unspaced[8..9] == "V";
  }

  lemma UnspacedGaps()
    ensures |Unspaced| == 13
    ensures NoWordIn(Unspaced, 3, 4)
    ensures NoWordIn(Unspaced, 7, 8)
    ensures ':' !in Unspaced[8..]
    ensures ':' !in Unspaced[9..]
  {
    assert NoWordIn(Unspaced, 4, 4);
    assert NoWordIn(Unspaced, 3, 4);
    assert NoWordIn(Unspaced, 8, 8);
    assert NoWordIn(Unspaced, 7, 8);
    assert Unspaced[8..] == "Void\n";
    assert Unspaced[9..] == "oid\n";
  }

  lemma ScanUnspacedL(p: Pattern, t: string)
    requires |t| == 13
    requires IsWordChar(t[0]) && RunEnd(t, 0, Word) == 3 && MatchAt(p, t, 0).None?
    requires NoWordIn(t, 3, 4)
    requires IsWordChar(t[4]) && RunEnd(t, 4, Word) == 7 && MatchAt(p, t, 4).None?
    requires NoWordIn(t, 7, 8)
    requires ':' !in t[8..]
    ensures Scan(p, t, 0) == []
  {
    SkipWord(p, t, 0);
    SkipNonWords(p, t, 3, 4);
    SkipWord(p, t, 4);
    SkipNonWords(p, t, 7, 8);
    NoColonNoMatches(p, t, 8);
  }

  lemma ScanUnspacedRJ(p: Pattern, t: string)
    requires |t| == 13
    requires IsWordChar(t[0]) && RunEnd(t, 0, Word) == 3 && MatchAt(p, t, 0).None?
    requires NoWordIn(t, 3, 4)
    requires MatchAt(p, t, 4) == Some(Match(Range(4, 5), "abc", "V"))
    requires ':' !in t[9..]
    ensures Scan(p, t, 0) == [Match(Range(4, 5), "abc", "V")]
  {
    SkipWord(p, t, 0);
    SkipNonWords(p, t, 3, 4);
    TakeMatch(p, t, 4);
    NoColonNoMatches(p, t, 9);
  }

  lemma UnspacedLeftMatches()
    ensures Matches(SpacingLeftOfColon, Unspaced) == []
  {
    UnspacedAt0();
    UnspacedAt4();
    UnspacedGaps();
    ScanUnspacedL(SpacingLeftOfColon, Unspaced);
  }

  lemma UnspacedRightMatches()
    ensures Matches(SpacingRightOfColon, Unspaced) == [Match(Range(4, 5), "abc", "V")]
  {
    UnspacedAt0();
    UnspacedAt4();
    UnspacedGaps();
    ScanUnspacedRJ(SpacingRightOfColon, Unspaced);
  }

  lemma UnspacedJoinedMatches()
    ensures Matches(Joined, Unspaced) == [Match(Range(4, 5), "abc", "V")]
  {
    UnspacedAt0();
    UnspacedAt4();
    UnspacedGaps();
    ScanUnspacedRJ(Joined, Unspaced);
  }

  // ---- "func abc(def: Void, ghi :Void) {}\n"

  /** Two parameters, the second with white space before its colon. */
  const TwoParameters: string := "func abc(def: Void, ghi :Void) {}\n"

  lemma TwoParametersAt0()
    ensures IsWordChar(TwoParameters[0]) && RunEnd(TwoParameters, 0, Word) == 4
    ensures LeftOfColonAt(TwoParameters, 0) == None
    ensures RightOfColonAt(TwoParameters, 0) == None
  {
    assert RunEnd(TwoParameters, 4, Word) == 4;
    assert RunEnd(TwoParameters, 3, Word) == 4;
    assert RunEnd(TwoParameters, 2, Word) == 4;
    assert RunEnd(TwoParameters, 1, Word) == 4;
    assert RunEnd(TwoParameters, 0, Word) == 4;
    assert RunEnd(TwoParameters, 5, Space) == 5;
    assert RunEnd(TwoParameters, 4, Space) == 5;
  }

  lemma TwoParametersAt5()
    ensures IsWordChar(TwoParameters[5]) && RunEnd(TwoParameters, 5, Word) == 8
    ensures LeftOfColonAt(TwoParameters, 5) == None
    ensures RightOfColonAt(TwoParameters, 5) == None
  {
    assert RunEnd(TwoParameters, 8, Word) == 8;
    assert RunEnd(TwoParameters, 7, Word) == 8;
    assert RunEnd(TwoParameters, 6, Word) == 8;
    assert RunEnd(TwoParameters, 5, Word) == 8;
    assert RunEnd(TwoParameters, 8, Space) == 8;
  }

  lemma TwoParametersAt9()
    ensures IsWordChar(TwoParameters[9]) && RunEnd(TwoParameters, 9, Word) == 12
    ensures LeftOfColonAt(TwoParameters, 9) == None
    ensures RightOfColonAt(TwoParameters, 9) == None
  {
    assert RunEnd(TwoParameters, 12, Word) == 12;
    assert RunEnd(TwoParameters, 11, Word) == 12;
    assert RunEnd(TwoParameters, 10, Word) == 12;
    assert RunEnd(TwoParameters, 9, Word) == 12;
    assert RunEnd(TwoParameters, 14, Space) == 14;
    assert RunEnd(TwoParameters, 13, Space) == 14;
  }

  lemma TwoParametersAt14()
    ensures IsWordChar(TwoParameters[14]) && RunEnd(TwoParameters, 14, Word) == 18
    ensures LeftOfColonAt(TwoParameters, 14) == None
    ensures RightOfColonAt(TwoParameters, 14) == None
  {
    assert RunEnd(TwoParameters, 18, Word) == 18;
    assert RunEnd(TwoParameters, 17, Word) == 18;
    assert RunEnd(TwoParameters, 16, Word) == 18;
    assert RunEnd(TwoParameters, 15, Word) == 18;
    assert RunEnd(TwoParameters, 14, Word) == 18;
    assert RunEnd(TwoParameters, 18, Space) == 18;
  }

  lemma TwoParametersAt20()
    ensures IsWordChar(TwoParameters[20]) && RunEnd(TwoParameters, 20, Word) == 23
    ensures LeftOfColonAt(TwoParameters, 20) == Some(Match(Range(20, 6), "ghi", "V"))
    ensures RightOfColonAt(TwoParameters, 20) == None
  {
    assert RunEnd(TwoParameters, 23, Word) == 23;
    assert RunEnd(TwoParameters, 22, Word) == 23;
    assert RunEnd(TwoParameters, 21, Word) == 23;
    assert RunEnd(TwoParameters, 20, Word) == 23;
    assert RunEnd(TwoParameters, 24, Space) == 24;
    assert RunEnd(TwoParameters, 23, Space) == 24;
    assert RunEnd(TwoParameters, 25, Space) == 25;
    assert TwoParameters[20..23] == "ghi";
    assert TwoParameters[25..26] == "V";
  }

  lemma TwoParametersGaps()
    ensures |TwoParameters| == 34
    ensures NoWordIn(TwoParameters, 4, 5)
    ensures NoWordIn(TwoParameters, 8, 9)
    ensures NoWordIn(TwoParameters, 12, 14)
    ensures NoWordIn(TwoParameters, 18, 20)
    ensures ':' !in TwoParameters[26..]
  {
    assert NoWordIn(TwoParameters, 5, 5);
    assert NoWordIn(TwoParameters, 4, 5);
    assert NoWordIn(TwoParameters, 9, 9);
    assert NoWordIn(TwoParameters, 8, 9);
    assert NoWordIn(TwoParameters, 14, 14);
    assert NoWordIn(TwoParameters, 13, 14);
    assert NoWordIn(TwoParameters, 12, 14);
    assert NoWordIn(TwoParameters, 20, 20);
    assert NoWordIn(TwoParameters, 19, 20);
    assert NoWordIn(TwoParameters, 18, 20);
    assert TwoParameters[26..] == "oid) {}\n";
  }

  lemma ScanTwoParameters(p: Pattern, t: string)
    requires |t| == 34
    requires IsWordChar(t[0]) && RunEnd(t, 0, Word) == 4 && MatchAt(p, t, 0).None?
    requires NoWordIn(t, 4, 5)
    requires IsWordChar(t[5]) && RunEnd(t, 5, Word) == 8 && MatchAt(p, t, 5).None?
    requires NoWordIn(t, 8, 9)
    requires IsWordChar(t[9]) && RunEnd(t, 9, Word) == 12 && MatchAt(p, t, 9).None?
    requires NoWordIn(t, 12, 14)
    requires IsWordChar(t[14]) && RunEnd(t, 14, Word) == 18 && MatchAt(p, t, 14).None?
    requires NoWordIn(t, 18, 20)
    requires MatchAt(p, t, 20) == Some(Match(Range(20, 6), "ghi", "V"))
    requires ':' !in t[26..]
    ensures Scan(p, t, 0) == [Match(Range(20, 6), "ghi", "V")]
  {
    SkipWord(p, t, 0);
    SkipNonWords(p, t, 4, 5);
    SkipWord(p, t, 5);
    SkipNonWords(p, t, 8, 9);
    SkipWord(p, t, 9);
    SkipNonWords(p, t, 12, 14);
    SkipWord(p, t, 14);
    SkipNonWords(p, t, 18, 20);
    TakeMatch(p, t, 20);
    NoColonNoMatches(p, t, 26);
  }

  lemma TwoParametersLeftMatches()
    ensures Matches(SpacingLeftOfColon, TwoParameters) == [Match(Range(20, 6), "ghi", "V")]
  {
    TwoParametersAt0();
    TwoParametersAt5();
    TwoParametersAt9();
    TwoParametersAt14();
    TwoParametersAt20();
    TwoParametersGaps();
    ScanTwoParameters(SpacingLeftOfColon, TwoParameters);
  }

  lemma TwoParametersJoinedMatches()
    ensures Matches(Joined, TwoParameters) == [Match(Range(20, 6), "ghi", "V")]
  {
    TwoParametersAt0();
    TwoParametersAt5();
    TwoParametersAt9();
    TwoParametersAt14();
    TwoParametersAt20();
    TwoParametersGaps();
    ScanTwoParameters(Joined, TwoParameters);
  }

  // ---- "func abc(def: Void, ghi: Void) {}\n"

  /** The two parameters written as the rule asks. */
  const TwoParametersFixed: string := "func abc(def: Void, ghi: Void) {}\n"

  lemma TwoParametersFixedAt0()
    ensures IsWordChar(TwoParametersFixed[0]) && RunEnd(TwoParametersFixed, 0, Word) == 4
    ensures LeftOfColonAt(TwoParametersFixed, 0) == None
    ensures RightOfColonAt(TwoParametersFixed, 0) == None
  {
    assert RunEnd(TwoParametersFixed, 4, Word) == 4;
    assert RunEnd(TwoParametersFixed, 3, Word) == 4;
    assert RunEnd(TwoParametersFixed, 2, Word) == 4;
    assert RunEnd(TwoParametersFixed, 1, Word) == 4;
    assert RunEnd(TwoParametersFixed, 0, Word) == 4;
    assert RunEnd(TwoParametersFixed, 5, Space) == 5;
    assert RunEnd(TwoParametersFixed, 4, Space) == 5;
  }

  lemma TwoParametersFixedAt5()
    ensures IsWordChar(TwoParametersFixed[5]) && RunEnd(TwoParametersFixed, 5, Word) == 8
    ensures LeftOfColonAt(TwoParametersFixed, 5) == None
    ensures RightOfColonAt(TwoParametersFixed, 5) == None
  {
    assert RunEnd(TwoParametersFixed, 8, Word) == 8;
    assert RunEnd(TwoParametersFixed, 7, Word) == 8;
    assert RunEnd(TwoParametersFixed, 6, Word) == 8;
    assert RunEnd(TwoParametersFixed, 5, Word) == 8;
    assert RunEnd(TwoParametersFixed, 8, Space) == 8;
  }

  lemma TwoParametersFixedAt9()
    ensures IsWordChar(TwoParametersFixed[9]) && RunEnd(TwoParametersFixed, 9, Word) == 12
    ensures LeftOfColonAt(TwoParametersFixed, 9) == None
    ensures RightOfColonAt(TwoParametersFixed, 9) == None
  {
    assert RunEnd(TwoParametersFixed, 12, Word) == 12;
    assert RunEnd(TwoParametersFixed, 11, Word) == 12;
    assert RunEnd(TwoParametersFixed, 10, Word) == 12;
    assert RunEnd(TwoParametersFixed, 9, Word) == 12;
    assert RunEnd(TwoParametersFixed, 14, Space) == 14;
    assert RunEnd(TwoParametersFixed, 13, Space) == 14;
  }

  lemma TwoParametersFixedAt14()
    ensures IsWordChar(TwoParametersFixed[14]) && RunEnd(TwoParametersFixed, 14, Word) == 18
    ensures LeftOfColonAt(TwoParametersFixed, 14) == None
    ensures RightOfColonAt(TwoParametersFixed, 14) == None
  {
    assert RunEnd(TwoParametersFixed, 18, Word) == 18;
    assert RunEnd(TwoParametersFixed, 17, Word) == 18;
    assert RunEnd(TwoParametersFixed, 16, Word) == 18;
    assert RunEnd(TwoParametersFixed, 15, Word) == 18;
    assert RunEnd(TwoParametersFixed, 14, Word) == 18;
    assert RunEnd(TwoParametersFixed, 18, Space) == 18;
  }

  lemma TwoParametersFixedAt20()
    ensures IsWordChar(TwoParametersFixed[20]) && RunEnd(TwoParametersFixed, 20, Word) == 23
    ensures LeftOfColonAt(TwoParametersFixed, 20) == None
    ensures RightOfColonAt(TwoParametersFixed, 20) == None
  {
    assert RunEnd(TwoParametersFixed, 23, Word) == 23;
    assert RunEnd(TwoParametersFixed, 22, Word) == 23;
    assert RunEnd(TwoParametersFixed, 21, Word) == 23;
    assert RunEnd(TwoParametersFixed, 20, Word) == 23;
    assert RunEnd(TwoParametersFixed, 25, Space) == 25;
    assert RunEnd(TwoParametersFixed, 24, Space) == 25;
  }

  lemma TwoParametersFixedGaps()
    ensures |TwoParametersFixed| == 34
    ensures NoWordIn(TwoParametersFixed, 4, 5)
    ensures NoWordIn(TwoParametersFixed, 8, 9)
    ensures NoWordIn(TwoParametersFixed, 12, 14)
    ensures NoWordIn(TwoParametersFixed, 18, 20)
    ensures NoWordIn(TwoParametersFixed, 23, 25)
    ensures ':' !in TwoParametersFixed[25..]
  {
    assert NoWordIn(TwoParametersFixed, 5, 5);
    assert NoWordIn(TwoParametersFixed, 4, 5);
    assert NoWordIn(TwoParametersFixed, 9, 9);
    assert NoWordIn(TwoParametersFixed, 8, 9);
    assert NoWordIn(TwoParametersFixed, 14, 14);
    assert NoWordIn(TwoParametersFixed, 13, 14);
    assert NoWordIn(TwoParametersFixed, 12, 14);
    assert NoWordIn(TwoParametersFixed, 20, 20);
    assert NoWordIn(TwoParametersFixed, 19, 20);
    assert NoWordIn(TwoParametersFixed, 18, 20);
    assert NoWordIn(TwoParametersFixed, 25, 25);
    assert NoWordIn(TwoParametersFixed, 24, 25);
    assert NoWordIn(TwoParametersFixed, 23, 25);
    assert TwoParametersFixed[25..] == "Void) {}\n";
  }

  lemma ScanTwoParametersFixed(p: Pattern, t: string)
    requires |t| == 34
    requires IsWordChar(t[0]) && RunEnd(t, 0, Word) == 4 && MatchAt(p, t, 0).None?
    requires NoWordIn(t, 4, 5)
    requires IsWordChar(t[5]) && RunEnd(t, 5, Word) == 8 && MatchAt(p, t, 5).None?
    requires NoWordIn(t, 8, 9)
    requires IsWordChar(t[9]) && RunEnd(t, 9, Word) == 12 && MatchAt(p, t, 9).None?
    requires NoWordIn(t, 12, 14)
    requires IsWordChar(t[14]) && RunEnd(t, 14, Word) == 18 && MatchAt(p, t, 14).None?
    requires NoWordIn(t, 18, 20)
    requires IsWordChar(t[20]) && RunEnd(t, 20, Word) == 23 && MatchAt(p, t, 20).None?
    requires NoWordIn(t, 23, 25)
    requires ':' !in t[25..]
    ensures Scan(p, t, 0) == []
  {
    SkipWord(p, t, 0);
    SkipNonWords(p, t, 4, 5);
    SkipWord(p, t, 5);
    SkipNonWords(p, t, 8, 9);
    SkipWord(p, t, 9);
    SkipNonWords(p, t, 12, 14);
    SkipWord(p, t, 14);
    SkipNonWords(p, t, 18, 20);
    SkipWord(p, t, 20);
    SkipNonWords(p, t, 23, 25);
    NoColonNoMatches(p, t, 25);
  }

  lemma TwoParametersFixedLeftMatches()
    ensures Matches(SpacingLeftOfColon, TwoParametersFixed) == []
  {
    TwoParametersFixedAt0();
    TwoParametersFixedAt5();
    TwoParametersFixedAt9();
    TwoParametersFixedAt14();
    TwoParametersFixedAt20();
    TwoParametersFixedGaps();
    ScanTwoParametersFixed(SpacingLeftOfColon, TwoParametersFixed);
  }

  lemma TwoParametersFixedRightMatches()
    ensures Matches(SpacingRightOfColon, TwoParametersFixed) == []
  {
    TwoParametersFixedAt0();
    TwoParametersFixedAt5();
    TwoParametersFixedAt9();
    TwoParametersFixedAt14();
    TwoParametersFixedAt20();
    TwoParametersFixedGaps();
    ScanTwoParametersFixed(SpacingRightOfColon, TwoParametersFixed);
  }

  // ---- "// \U{5468}\U{658C}\U{4F73}\U{5E74}\U{5468}\U{658C}\U{4F73}\nlet abc: String = \"abc:\""

  /** A comment, then a declaration whose string literal holds colon-shaped text. */
  const ColonInString: string := "// \U{5468}\U{658C}\U{4F73}\U{5E74}\U{5468}\U{658C}\U{4F73}\nlet abc: String = \"abc:\""

  lemma ColonInStringAt11()
    ensures IsWordChar(ColonInString[11]) && RunEnd(ColonInString, 11, Word) == 14
    ensures LeftOfColonAt(ColonInString, 11) == None
    ensures RightOfColonAt(ColonInString, 11) == None
  {
    assert RunEnd(ColonInString, 14, Word) == 14;
    assert RunEnd(ColonInString, 13, Word) == 14;
    assert RunEnd(ColonInString, 12, Word) == 14;
    assert RunEnd(ColonInString, 11, Word) == 14;
    assert RunEnd(ColonInString, 15, Space) == 15;
    assert RunEnd(ColonInString, 14, Space) == 15;
  }

  lemma ColonInStringAt15()
    ensures IsWordChar(ColonInString[15]) && RunEnd(ColonInString, 15, Word) == 18
    ensures LeftOfColonAt(ColonInString, 15) == None
    ensures RightOfColonAt(ColonInString, 15) == None
  {
    assert RunEnd(ColonInString, 18, Word) == 18;
    assert RunEnd(ColonInString, 17, Word) == 18;
    assert RunEnd(ColonInString, 16, Word) == 18;
    assert RunEnd(ColonInString, 15, Word) == 18;
    assert RunEnd(ColonInString, 20, Space) == 20;
    assert RunEnd(ColonInString, 19, Space) == 20;
  }

  lemma ColonInStringAt20()
    ensures IsWordChar(ColonInString[20]) && RunEnd(ColonInString, 20, Word) == 26
    ensures LeftOfColonAt(ColonInString, 20) == None
    ensures RightOfColonAt(ColonInString, 20) == None
  {
    assert RunEnd(ColonInString, 26, Word) == 26;
    assert RunEnd(ColonInString, 25, Word) == 26;
    assert RunEnd(ColonInString, 24, Word) == 26;
    assert RunEnd(ColonInString, 23, Word) == 26;
    assert RunEnd(ColonInString, 22, Word) == 26;
    assert RunEnd(ColonInString, 21, Word) == 26;
    assert RunEnd(ColonInString, 20, Word) == 26;
    assert RunEnd(ColonInString, 27, Space) == 27;
    assert RunEnd(ColonInString, 26, Space) == 27;
  }

  lemma ColonInStringAt30()
    ensures IsWordChar(ColonInString[30]) && RunEnd(ColonInString, 30, Word) == 33
    ensures LeftOfColonAt(ColonInString, 30) == None
    ensures RightOfColonAt(ColonInString, 30) == Some(Match(Range(30, 5), "abc", "\""))
  {
    assert RunEnd(ColonInString, 33, Word) == 33;
    assert RunEnd(ColonInString, 32, Word) == 33;
    assert RunEnd(ColonInString, 31, Word) == 33;
    assert RunEnd(ColonInString, 30, Word) == 33;
    assert RunEnd(ColonInString, 34, Space) == 34;
    assert ColonInString[30..33] == "abc";
    assert ColonInString[34..35] == "\"";
  }

  /** The comment line before the first word, `let`. */
  lemma ColonInStringLead()
    ensures |ColonInString| == 35
    ensures NoWordIn(ColonInString, 0, 11)
  {
    assert NoWordIn(ColonInString, 11, 11);
    assert NoWordIn(ColonInString, 10, 11);
    assert NoWordIn(ColonInString, 9, 11);
    assert NoWordIn(ColonInString, 8, 11);
    assert NoWordIn(ColonInString, 7, 11);
    assert NoWordIn(ColonInString, 6, 11);
    assert NoWordIn(ColonInString, 5, 11);
    assert NoWordIn(ColonInString, 4, 11);
    assert NoWordIn(ColonInString, 3, 11);
    assert NoWordIn(ColonInString, 2, 11);
    assert NoWordIn(ColonInString, 1, 11);
    assert NoWordIn(ColonInString, 0, 11);
  }

  lemma ColonInStringGaps()
    ensures |ColonInString| == 35
    ensures NoWordIn(ColonInString, 0, 11)
    ensures NoWordIn(ColonInString, 14, 15)
    ensures NoWordIn(ColonInString, 18, 20)
    ensures NoWordIn(ColonInString, 26, 30)
    ensures NoWordIn(ColonInString, 33, 35)
  {
    ColonInStringLead();
    assert NoWordIn(ColonInString, 15, 15);
    assert NoWordIn(ColonInString, 14, 15);
    assert NoWordIn(ColonInString, 20, 20);
    assert NoWordIn(ColonInString, 19, 20);
    assert NoWordIn(ColonInString, 18, 20);
    assert NoWordIn(ColonInString, 30, 30);
    assert NoWordIn(ColonInString, 29, 30);
    assert NoWordIn(ColonInString, 28, 30);
    assert NoWordIn(ColonInString, 27, 30);
    assert NoWordIn(ColonInString, 26, 30);
    assert NoWordIn(ColonInString, 35, 35);
    assert NoWordIn(ColonInString, 34, 35);
    assert NoWordIn(ColonInString, 33, 35);
  }

  lemma ScanColonInStringL(p: Pattern, t: string)
    requires |t| == 35
    requires NoWordIn(t, 0, 11)
    requires IsWordChar(t[11]) && RunEnd(t, 11, Word) == 14 && MatchAt(p, t, 11).None?
    requires NoWordIn(t, 14, 15)
    requires IsWordChar(t[15]) && RunEnd(t, 15, Word) == 18 && MatchAt(p, t, 15).None?
    requires NoWordIn(t, 18, 20)
    requires IsWordChar(t[20]) && RunEnd(t, 20, Word) == 26 && MatchAt(p, t, 20).None?
    requires NoWordIn(t, 26, 30)
    requires IsWordChar(t[30]) && RunEnd(t, 30, Word) == 33 && MatchAt(p, t, 30).None?
    requires NoWordIn(t, 33, 35)
    ensures Scan(p, t, 0) == []
  {
    SkipNonWords(p, t, 0, 11);
    SkipWord(p, t, 11);
    SkipNonWords(p, t, 14, 15);
    SkipWord(p, t, 15);
    SkipNonWords(p, t, 18, 20);
    SkipWord(p, t, 20);
    SkipNonWords(p, t, 26, 30);
    SkipWord(p, t, 30);
    SkipNonWords(p, t, 33, 35);
  }

  lemma ScanColonInStringRJ(p: Pattern, t: string)
    requires |t| == 35
    requires NoWordIn(t, 0, 11)
    requires IsWordChar(t[11]) && RunEnd(t, 11, Word) == 14 && MatchAt(p, t, 11).None?
    requires NoWordIn(t, 14, 15)
    requires IsWordChar(t[15]) && RunEnd(t, 15, Word) == 18 && MatchAt(p, t, 15).None?
    requires NoWordIn(t, 18, 20)
    requires IsWordChar(t[20]) && RunEnd(t, 20, Word) == 26 && MatchAt(p, t, 20).None?
    requires NoWordIn(t, 26, 30)
    requires MatchAt(p, t, 30) == Some(Match(Range(30, 5), "abc", "\""))
    ensures Scan(p, t, 0) == [Match(Range(30, 5), "abc", "\"")]
  {
    SkipNonWords(p, t, 0, 11);
    SkipWord(p, t, 11);
    SkipNonWords(p, t, 14, 15);
    SkipWord(p, t, 15);
    SkipNonWords(p, t, 18, 20);
    SkipWord(p, t, 20);
    SkipNonWords(p, t, 26, 30);
    TakeMatch(p, t, 30);
  }

  lemma ColonInStringLeftMatches()
    ensures Matches(SpacingLeftOfColon, ColonInString) == []
  {
    ColonInStringAt11();
    ColonInStringAt15();
    ColonInStringAt20();
    ColonInStringAt30();
    ColonInStringGaps();
    ScanColonInStringL(SpacingLeftOfColon, ColonInString);
  }

  lemma ColonInStringRightMatches()
    ensures Matches(SpacingRightOfColon, ColonInString) == [Match(Range(30, 5), "abc", "\"")]
  {
    ColonInStringAt11();
    ColonInStringAt15();
    ColonInStringAt20();
    ColonInStringAt30();
    ColonInStringGaps();
    ScanColonInStringRJ(SpacingRightOfColon, ColonInString);
  }

  lemma ColonInStringJoinedMatches()
    ensures Matches(Joined, ColonInString) == [Match(Range(30, 5), "abc", "\"")]
  {
    ColonInStringAt11();
    ColonInStringAt15();
    ColonInStringAt20();
    ColonInStringAt30();
    ColonInStringGaps();
    ScanColonInStringRJ(Joined, ColonInString);
  }
  // ---- The examples' outcomes

  /** A classifier under which every candidate span is a type annotation. */
  function TypeAnnotations(): Classifier {
    (s: string, r: Range) => [Identifier, Typeidentifier]
  }

  /** A classifier that reports a string literal from offset `start` on and
      a type annotation before it. */
  function StringLiteralFrom(start: nat): Classifier {
    (s: string, r: Range) => if r.location >= start then [String] else [Identifier, Typeidentifier]
  }

  lemma FilterOne(t: string, m: Match, classify: Classifier)
    ensures Filter(t, [m], classify) == if Accepts(classify(t, m.range)) then [m] else []
  {
    assert [m][1..] == [];
  }

  lemma SplicedOne(t: string, m: Match)
    requires Ordered(t, [m])
    ensures m.range.End() <= |t|
    ensures Spliced(t, [m]) == t[..m.range.location] + Template(m) + t[m.range.End()..]
  {
    assert [m][0] == m;
    assert SplicedFrom(t, [m], 1) == "";
  }

  lemma CorrectionsForOne(m: Match)
    ensures CorrectionsFor([m]) == [Correction(RuleIdentifier, m.range.location)]
  {
    assert CorrectionsFor([m][1..]) == [];
  }

  /** A pass over a text with one raw match that the classifier accepts. */
  lemma OneAcceptedMatch(p: Pattern, t: string, m: Match, classify: Classifier)
    requires Matches(p, t) == [m] && Accepts(classify(t, m.range))
    ensures ValidMatches(p, t, classify) == [m]
    ensures m.range.End() <= |t|
    ensures AfterPass(p, t, classify) == t[..m.range.location] + Template(m) + t[m.range.End()..]
    ensures CorrectionsFor([m]) == [Correction(RuleIdentifier, m.range.location)]
  {
    FilterOne(t, m, classify);
    SplicedOne(t, m);
    CorrectionsForOne(m);
  }

  /** A pass over a text with one raw match that the classifier rejects. */
  lemma OneRejectedMatch(p: Pattern, t: string, m: Match, classify: Classifier)
    requires Matches(p, t) == [m] && !Accepts(classify(t, m.range))
    ensures ValidMatches(p, t, classify) == []
    ensures AfterPass(p, t, classify) == t
  {
    FilterOne(t, m, classify);
  }

  /** A pass over a text without raw matches. */
  lemma NoMatch(p: Pattern, t: string, classify: Classifier)
    requires Matches(p, t) == []
    ensures ValidMatches(p, t, classify) == []
    ensures AfterPass(p, t, classify) == t
  {
  }

  lemma AcceptsTypeAnnotations(t: string, r: Range)
    ensures Accepts(TypeAnnotations()(t, r))
  {
  }

  /** The outcome of `correctFile(file)` from the outcomes of its passes. */
  lemma CorrectFileFromPasses(t: string, classify: Classifier, ms1: seq<Match>, t1: string, ms2: seq<Match>, t2: string)
    requires ValidMatches(SpacingLeftOfColon, t, classify) == ms1
    requires AfterPass(SpacingLeftOfColon, t, classify) == t1
    requires ValidMatches(SpacingRightOfColon, t1, classify) == ms2
    requires AfterPass(SpacingRightOfColon, t1, classify) == t2
    ensures CorrectFileCorrections(t, classify) == CorrectionsFor(ms1) + CorrectionsFor(ms2)
    ensures CorrectFileWrites(t, classify) == (if ms1 == [] then [] else [t1]) + (if ms2 == [] then [] else [t2])
  {
  }

  /** The violations for one accepted match of the joined pattern. */
  lemma ValidateOne(t: string, classify: Classifier, m: Match)
    requires ValidMatches(Joined, t, classify) == [m]
    ensures ValidateFile(t, classify) == [StyleViolation(RuleIdentifier, m.range.location)]
  {
  }

  lemma SpacedRewritten()
    ensures Spaced[..4] + Template(Match(Range(4, 7), "abc", "V")) + Spaced[11..] == Tight
  {
    assert Spaced[..4] == "let " && Spaced[11..] == "oid\n";
  }

  /** `let abc : Void` is reported at `abc` and corrected to
      `let abc: Void`. */
  lemma SpacedCorrected()
    ensures ValidateFile(Spaced, TypeAnnotations()) == [StyleViolation(RuleIdentifier, 4)]
    ensures CorrectFileCorrections(Spaced, TypeAnnotations()) == [Correction(RuleIdentifier, 4)]
    ensures CorrectFileWrites(Spaced, TypeAnnotations()) == ["let abc: Void\n"]
  {
    var m := Match(Range(4, 7), "abc", "V");
    SpacedLeftMatches();
    SpacedJoinedMatches();
    TightRightMatches();
    AcceptsTypeAnnotations(Spaced, m.range);
    OneAcceptedMatch(SpacingLeftOfColon, Spaced, m, TypeAnnotations());
    SpacedRewritten();
    OneAcceptedMatch(Joined, Spaced, m, TypeAnnotations());
    ValidateOne(Spaced, TypeAnnotations(), m);
    NoMatch(SpacingRightOfColon, Tight, TypeAnnotations());
    CorrectionsForOne(m);
    CorrectFileFromPasses(Spaced, TypeAnnotations(), [m], Tight, [], Tight);
  }

  lemma UnspacedRewritten()
    ensures Unspaced[..4] + Template(Match(Range(4, 5), "abc", "V")) + Unspaced[9..] == Tight
  {
    assert Unspaced[..4] == "let " && Unspaced[9..] == "oid\n";
  }

  /** `let abc:Void` is reported at `abc` and corrected to `let abc: Void`
      by the second pass. */
  lemma UnspacedCorrected()
    ensures ValidateFile(Unspaced, TypeAnnotations()) == [StyleViolation(RuleIdentifier, 4)]
    ensures CorrectFileCorrections(Unspaced, TypeAnnotations()) == [Correction(RuleIdentifier, 4)]
    ensures CorrectFileWrites(Unspaced, TypeAnnotations()) == ["let abc: Void\n"]
  {
    var m := Match(Range(4, 5), "abc", "V");
    UnspacedLeftMatches();
    UnspacedRightMatches();
    UnspacedJoinedMatches();
    AcceptsTypeAnnotations(Unspaced, m.range);
    NoMatch(SpacingLeftOfColon, Unspaced, TypeAnnotations());
    OneAcceptedMatch(SpacingRightOfColon, Unspaced, m, TypeAnnotations());
    UnspacedRewritten();
    OneAcceptedMatch(Joined, Unspaced, m, TypeAnnotations());
    ValidateOne(Unspaced, TypeAnnotations(), m);
    CorrectionsForOne(m);
    CorrectFileFromPasses(Unspaced, TypeAnnotations(), [], Unspaced, [m], Tight);
  }

  lemma TwoParametersRewritten()
    ensures TwoParameters[..20] + Template(Match(Range(20, 6), "ghi", "V")) + TwoParameters[26..]
      == TwoParametersFixed
  {
    assert TwoParameters[..20] == "func abc(def: Void, " && TwoParameters[26..] == "oid) {}\n";
  }

  /** `func abc(def: Void, ghi :Void) {}` is reported at `ghi` only and
      corrected to `func abc(def: Void, ghi: Void) {}`. */
  lemma TwoParametersCorrected()
    ensures ValidateFile(TwoParameters, TypeAnnotations()) == [StyleViolation(RuleIdentifier, 20)]
    ensures CorrectFileCorrections(TwoParameters, TypeAnnotations()) == [Correction(RuleIdentifier, 20)]
    ensures CorrectFileWrites(TwoParameters, TypeAnnotations()) == ["func abc(def: Void, ghi: Void) {}\n"]
  {
    var m := Match(Range(20, 6), "ghi", "V");
    TwoParametersLeftMatches();
    TwoParametersJoinedMatches();
    TwoParametersFixedRightMatches();
    AcceptsTypeAnnotations(TwoParameters, m.range);
    OneAcceptedMatch(SpacingLeftOfColon, TwoParameters, m, TypeAnnotations());
    TwoParametersRewritten();
    OneAcceptedMatch(Joined, TwoParameters, m, TypeAnnotations());
    ValidateOne(TwoParameters, TypeAnnotations(), m);
    NoMatch(SpacingRightOfColon, TwoParametersFixed, TypeAnnotations());
    CorrectionsForOne(m);
    CorrectFileFromPasses(TwoParameters, TypeAnnotations(), [m], TwoParametersFixed, [], TwoParametersFixed);
  }

  /** A text without any raw match is not reported, and correcting it
      reports nothing and writes nothing, whatever the classifier says. */
  lemma NothingToCorrect(t: string, classify: Classifier)
    requires Matches(SpacingLeftOfColon, t) == [] && Matches(SpacingRightOfColon, t) == []
    ensures ValidateFile(t, classify) == []
    ensures CorrectFileCorrections(t, classify) == [] && CorrectFileWrites(t, classify) == []
  {
    JoinedNeedsAPattern(t);
    NoMatch(SpacingLeftOfColon, t, classify);
    NoMatch(SpacingRightOfColon, t, classify);
    NoMatch(Joined, t, classify);
    CorrectFileFromPasses(t, classify, [], t, [], t);
  }

  /** The corrected texts are left alone: correcting them again changes
      nothing. */
  lemma CorrectedFormsAreClean(classify: Classifier)
    ensures ValidateFile(Tight, classify) == []
    ensures CorrectFileCorrections(Tight, classify) == [] && CorrectFileWrites(Tight, classify) == []
    ensures ValidateFile(TwoParametersFixed, classify) == []
    ensures CorrectFileCorrections(TwoParametersFixed, classify) == []
    ensures CorrectFileWrites(TwoParametersFixed, classify) == []
  {
    TightLeftMatches();
    TightRightMatches();
    NothingToCorrect(Tight, classify);
    TwoParametersFixedLeftMatches();
    TwoParametersFixedRightMatches();
    NothingToCorrect(TwoParametersFixed, classify);
  }

  lemma RejectsString(t: string, r: Range)
    requires r.location >= 29
    ensures !Accepts(StringLiteralFrom(29)(t, r))
  {
    assert StringLiteralFrom(29)(t, r) == [String];
  }

  /** The colon-shaped `abc:"` inside the string literal is a raw match of
      the joined pattern, but the classifier places it in a string, so it is
      neither reported nor rewritten. */
  lemma ColonInStringIgnored()
    ensures Matches(Joined, ColonInString) == [Match(Range(30, 5), "abc", "\"")]
    ensures ValidateFile(ColonInString, StringLiteralFrom(29)) == []
    ensures CorrectFileCorrections(ColonInString, StringLiteralFrom(29)) == []
    ensures CorrectFileWrites(ColonInString, StringLiteralFrom(29)) == []
  {
    var m := Match(Range(30, 5), "abc", "\"");
    var c := StringLiteralFrom(29);
    ColonInStringLeftMatches();
    ColonInStringRightMatches();
    ColonInStringJoinedMatches();
    RejectsString(ColonInString, m.range);
    NoMatch(SpacingLeftOfColon, ColonInString, c);
    OneRejectedMatch(SpacingRightOfColon, ColonInString, m, c);
    OneRejectedMatch(Joined, ColonInString, m, c);
    CorrectFileFromPasses(ColonInString, c, [], ColonInString, [], ColonInString);
  }
}
