# SwiftLint colon rule, modelled in Dafny

The SwiftLint `colon` rule says that a colon in a type annotation must sit
directly after the identifier and be followed by exactly one space:
`let abc: Void`, not `let abc :Void` or `let abc:  Void`. The rule finds
offending spans with two regular expressions:

- `(\w+)\s+:\s*(\[?\S+?)`: white space left of the colon;
- `(\w+):(?:\s{0}|\s{2,})(\S+?)`: no space or too much space right of it.

It keeps the spans whose syntax kinds mark them as type annotations, and it
either reports them or rewrites each one to `$1: $2`.

This project models that rule:

- `wrappers.dfy` defines `Option`.
- `characters.dfy` defines the character classes `\w` and `\s` and the end of
  a run of one class (`RunEnd`).
- `colon_patterns.dfy` gives the meaning of the two patterns and of their
  `|`-join.
  - `HasShape` and `ShortestRight` say what the regular expression matches.
    `MatchAt` is the matcher at one offset. It is proved sound and complete
    against them for each of the two patterns and for their join.
  - `Scan` and `Matches` are the leftmost-first search over a whole text.
    After a match, the search resumes at the match's end.
- `replacement.dfy` defines the template `$1: $2` and `Spliced`, the
  reference result of replacing a set of matches. It also defines
  `ReplaceInRange`, which is NSRegularExpression's replacement confined to one
  range for either of the two listed patterns. It proves that confining it to
  a match's own range rewrites that match and nothing else.
- `syntax_kinds.dfy` lists the syntax kinds and the comment and string kinds.
- `colon_rule.dfy` models the rule itself:
  - the acceptance filter of `validMatchesInFile`;
  - `validateFile` on the joined pattern;
  - `correctFile(file, withPattern:)`, a method whose loop rewrites the
    accepted matches from the last to the first. It is proved equal to
    `Spliced`, with one correction per match in decreasing offset order;
  - `correctFile(file)`, the two passes in sequence.
- `colon_rule_examples.dfy` works several of the examples listed in the
  rule's `RuleDescription` through the whole model.

Some behaviour is modelled as parameters or returned values:

- The syntax kinds come from SourceKitten's syntax map. Here they are a
  parameter, `Classifier`: a function from the current text and a range to
  the kinds found there. The second correction pass classifies the text the
  first pass wrote.
- Writing the file is a returned value. `CorrectWithPattern` returns the
  written text, if any. `CorrectFile` returns every text written, in order.

The rule behaves as follows:

- Validation uses the joined pattern. Correction runs the two patterns one
  after the other, and the second pass runs on the text the first pass wrote.
- Corrections within a pass come in decreasing offset order, the order in
  which the loop visits the matches.
- A span is accepted only if its kinds *start with* `Identifier`,
  `Typeidentifier` and contain no comment or string kind.

## Model

| member | source | states |
|---|---|---|
| Characters.IsWordChar | Source/SwiftLintFramework/Rules/ColonRule.swift:67-68 | `\w` as modelled: a word character is an ASCII letter, digit or `_`, and never a colon or `[` |
| Characters.IsSpace | Source/SwiftLintFramework/Rules/ColonRule.swift:67-68 | `\s`: the Unicode White_Space characters. Space, tab, newline and carriage return are among them, and no word character, colon or `[` is |
| Characters.RunEnd | Source/SwiftLintFramework/Rules/ColonRule.swift:67-68 | what a greedy `\w+`, `\s+`, `\s*` or `\s{2,}` consumes: every character of the run is in the class, and the run stops at the end of the text or at the first character outside it |
| SyntaxKinds.CommentAndStringKinds | Source/SwiftLintFramework/Rules/ColonRule.swift:78 | the comment and string kinds the filter excludes: six kinds, including `Comment`, `DocComment` and `String`, and neither `Identifier` nor `Typeidentifier`. The set is defined by SwiftLint's `SyntaxKind` extension, which is not part of this model; the six kinds are taken from it |
| ColonPatterns.MatchAt | Source/SwiftLintFramework/Rules/ColonRule.swift:67-68 | a match found at offset `i` starts at `i`, is non-empty and lies inside the text |
| ColonPatterns.MatchAtSound | Source/SwiftLintFramework/Rules/ColonRule.swift:67-68 | what `MatchAt` returns has the pattern's shape (word capture, separator, lazy right capture) and the shortest right capture the lazy `\S+?` allows |
| ColonPatterns.LeftOfColonAt | Source/SwiftLintFramework/Rules/ColonRule.swift:67 | a match of the left-of-colon pattern at offset `i` starts at `i`, is non-empty and lies inside the text |
| ColonPatterns.RightOfColonAt | Source/SwiftLintFramework/Rules/ColonRule.swift:68 | a match of the right-of-colon pattern at offset `i` starts at `i`, is non-empty and lies inside the text |
| ColonPatterns.LeftOfColonSound | Source/SwiftLintFramework/Rules/ColonRule.swift:67 | what the left-of-colon matcher returns has that pattern's shape and the shortest right capture `\[?\S+?` allows |
| ColonPatterns.RightOfColonSound | Source/SwiftLintFramework/Rules/ColonRule.swift:68 | what the right-of-colon matcher returns has that pattern's shape and a one-character right capture |
| ColonPatterns.LeftOfColonComplete | Source/SwiftLintFramework/Rules/ColonRule.swift:67 | every span of the left-of-colon shape makes that matcher succeed at its start, and returns the span itself when its right capture is the shortest |
| ColonPatterns.RightOfColonComplete | Source/SwiftLintFramework/Rules/ColonRule.swift:68 | every span of the right-of-colon shape makes that matcher succeed at its start, and returns the span itself when its right capture is one character |
| ColonPatterns.RightShapeNotLeft | Source/SwiftLintFramework/Rules/ColonRule.swift:67-68 | where a span of the right-of-colon shape starts, the left-of-colon pattern does not match, so the join's first alternative never hides a right-of-colon match |
| ColonPatterns.Patterns | Source/SwiftLintFramework/Rules/ColonRule.swift:69-71 | the rule's pattern list has two distinct entries, the left-of-colon pattern first, and does not contain their join |
| ColonPatterns.MatchAtComplete | Source/SwiftLintFramework/Rules/ColonRule.swift:67-68 | for either pattern and for their join, every span with the pattern's shape makes `MatchAt` succeed at its start, and the shortest such span is exactly what it returns |
| ColonPatterns.JoinedComplete | Source/SwiftLintFramework/Rules/ColonRule.swift:86 | every span with the shape of the alternation of the two patterns makes the joined matcher succeed, and the shortest such span, the left alternative taking precedence, is exactly what it returns |
| ColonPatterns.SeparatorsDisjoint | Source/SwiftLintFramework/Rules/ColonRule.swift:67-68 | no separator fits both patterns: white space before the colon and none or two or more spaces after it exclude each other |
| ColonPatterns.JoinedIsEither | Source/SwiftLintFramework/Rules/ColonRule.swift:86 | the joined pattern matches at an offset exactly when one of the two listed patterns does |
| ColonPatterns.JoinedNeedsAPattern | Source/SwiftLintFramework/Rules/ColonRule.swift:86 | a text in which neither pattern matches has no match of their join |
| ColonPatterns.MatchHasColon | Source/SwiftLintFramework/Rules/ColonRule.swift:67-68 | every match of either pattern contains a colon |
| ColonPatterns.NoColonNoMatches | Source/SwiftLintFramework/Rules/ColonRule.swift:67-68 | a text with no colon has no match |
| ColonPatterns.Scan | Source/SwiftLintFramework/Rules/ColonRule.swift:74 | the search returns non-overlapping matches in increasing order, each one the match at its own start, and every offset where a match could start is covered by a found match |
| ColonPatterns.Matches | Source/SwiftLintFramework/Rules/ColonRule.swift:74 | the same, over the whole text |
| ColonPatterns.SkipWord | Source/SwiftLintFramework/Rules/ColonRule.swift:67-68 | if no match starts at a word character, none starts anywhere inside the same word, so the search may jump to the word's end |
| ColonPatterns.ShapeInSlice | Source/SwiftLintFramework/Rules/ColonRule.swift:67-68 | a span has the pattern's shape inside a slice exactly when the shifted span has it in the whole text |
| ColonPatterns.MatchAtInOwnRange | Source/SwiftLintFramework/Rules/ColonRule.swift:105-107 | a match is found again, at offset 0, when the search is confined to its own range |
| Replacement.Template | Source/SwiftLintFramework/Rules/ColonRule.swift:107 | the template `$1: $2` is the word capture, a colon, one space and the right capture |
| Replacement.TemplateIsClean | Source/SwiftLintFramework/Rules/ColonRule.swift:107 | wherever the template of a match stands in a text, neither pattern nor their join matches at its start |
| Replacement.ReplaceInRange | Source/SwiftLintFramework/Rules/ColonRule.swift:106-107 | for either of the two listed patterns, replacing the matches found inside a range leaves the text before the range and the text after it unchanged |
| Replacement.SplicedLength | Source/SwiftLintFramework/Rules/ColonRule.swift:105-107 | the rewritten text's length is the original's plus the growth of every replaced match |
| Replacement.TemplateInPlace | Source/SwiftLintFramework/Rules/ColonRule.swift:105-107 | the `k`-th match's template `$1: $2` sits in the rewritten text at the match's original offset moved by the growth of the earlier matches |
| Replacement.GapKept | Source/SwiftLintFramework/Rules/ColonRule.swift:105-107 | every character between two replaced matches is kept, moved by the growth of the earlier matches |
| Replacement.ReplaceInMatchRange | Source/SwiftLintFramework/Rules/ColonRule.swift:105-107 | for either of the two listed patterns, a replacement confined to a match's range replaces exactly that match by its template and keeps the rest of the text, in any text that agrees with the original on that range |
| Replacement.SplicedTemplateIsClean | Source/SwiftLintFramework/Rules/ColonRule.swift:105-107 | in the rewritten text, no pattern matches where the template of a replaced match begins |
| ColonRule.Accepts | Source/SwiftLintFramework/Rules/ColonRule.swift:74-81 | a span is accepted exactly when its kinds start with `Identifier`, `Typeidentifier` and none of them is a comment or string kind |
| ColonRule.Filter | Source/SwiftLintFramework/Rules/ColonRule.swift:74-82 | the filter keeps exactly the accepted matches, in their original order, as a subsequence |
| ColonRule.ValidMatches | Source/SwiftLintFramework/Rules/ColonRule.swift:73-83 | the valid matches are ordered, a subsequence of the raw matches, and hold exactly the raw matches whose kinds are accepted |
| ColonRule.CommentOrStringIgnored | Source/SwiftLintFramework/Rules/ColonRule.swift:78-80 | a match whose kinds include a comment or string kind is never a valid match |
| ColonRule.ValidateFile | Source/SwiftLintFramework/Rules/ColonRule.swift:85-91 | one violation of rule `colon` per valid match of the joined pattern, at that match's offset, in the same order |
| ColonRule.ViolationsAscend | Source/SwiftLintFramework/Rules/ColonRule.swift:85-91 | violations come at strictly increasing offsets |
| ColonRule.ViolationIffAcceptedMatch | Source/SwiftLintFramework/Rules/ColonRule.swift:85-91 | a violation is reported at offset `x` if and only if a joined-pattern match starts at `x` and its kinds are accepted |
| ColonRule.RewriteStep | Source/SwiftLintFramework/Rules/ColonRule.swift:105-107 | one loop step: replacing within the range of the `i`-th match, in the text where the later matches are already rewritten, gives the text where matches `i` onwards are rewritten |
| ColonRule.CorrectionsForReversed | Source/SwiftLintFramework/Rules/ColonRule.swift:105-110 | there is one correction per match, and the `k`-th is at the offset of the `k`-th match from the end |
| ColonRule.ReversedDescend | Source/SwiftLintFramework/Rules/ColonRule.swift:105-110 | corrections taken from ordered matches in reverse come at strictly decreasing offsets |
| ColonRule.RewriteFromLast | Source/SwiftLintFramework/Rules/ColonRule.swift:103-111 | the loop over the matches in reverse yields the text with every match replaced by its template at its original offset, and one correction per match, last match first |
| ColonRule.ValidMatchesFoundBy | Source/SwiftLintFramework/Rules/ColonRule.swift:73-83 | each accepted match is the pattern's match at its own start |
| ColonRule.RewrittenMatchIsClean | Source/SwiftLintFramework/Rules/ColonRule.swift:105-107 | where a match found by a pattern was rewritten, the rewritten text matches no pattern at the template's start, so a second pass does not correct it again there |
| ColonRule.CorrectWithPattern | Source/SwiftLintFramework/Rules/ColonRule.swift:99-114 | no accepted match: no correction and no write. Otherwise the written text is the original with every accepted match replaced by `$1: $2`, with one correction per accepted match at strictly decreasing offsets |
| ColonRule.CorrectFile | Source/SwiftLintFramework/Rules/ColonRule.swift:93-97 | the left-of-colon pass's corrections followed by those of the right-of-colon pass over the text the first pass wrote. The file is written once per pass that found something, so it is written exactly when some correction is reported |
| ColonRuleExamples.SpacedCorrected | Source/SwiftLintFramework/Rules/ColonRule.swift:49 | `let abc : Void` is reported once at `abc` and corrected to `let abc: Void` by the first pass, with one correction and one write |
| ColonRuleExamples.UnspacedCorrected | Source/SwiftLintFramework/Rules/ColonRule.swift:46 | `let abc:Void` is reported once at `abc` and corrected to `let abc: Void` by the second pass |
| ColonRuleExamples.TwoParametersCorrected | Source/SwiftLintFramework/Rules/ColonRule.swift:61 | `func abc(def: Void, ghi :Void) {}` is reported only at `ghi` and corrected to `func abc(def: Void, ghi: Void) {}` |
| ColonRuleExamples.NothingToCorrect | Source/SwiftLintFramework/Rules/ColonRule.swift:99-101 | a text where neither listed pattern matches (so their join does not either) gives no violation, no correction and no write, whatever the classifier says |
| ColonRuleExamples.CorrectedFormsAreClean | Source/SwiftLintFramework/Rules/ColonRule.swift:17-24 | `let abc: Void` and `func abc(def: Void, ghi: Void) {}` trigger nothing and are not rewritten, whatever the classifier says |
| ColonRuleExamples.ColonInStringIgnored | Source/SwiftLintFramework/Rules/ColonRule.swift:25 | in `let abc: String = "abc:"` the joined pattern matches `abc:"` inside the string literal, but that match is classified as a string and is neither reported nor rewritten |

## Left out

- The syntax classifier is a parameter (`Classifier`). SourceKitten's syntax map and the way `matchPattern` collects the kinds of the tokens under a range are not part of this model.
- Regular expressions in general: only the two patterns of this rule and their join are modelled, by a hand-written matcher proved against a description of each pattern's shape.
- `IsWordChar` covers only ASCII letters, digits and `_`. ICU's `\w` also covers Unicode letters, marks and digits, whose tables are not modelled. `IsSpace` lists every character of the Unicode White_Space property, which is ICU's `\s`.
- Offsets are positions in a `seq<char>`. NSRange counts UTF-16 code units, so texts with characters outside the Basic Multilingual Plane are not modelled.
- `Location(file:offset:)` turning an offset into a line and column, and the rule's description metadata (name, description text), are not modelled. A violation or correction carries the rule identifier and the offset.
- ReplaceInRange: the template `$1: $2` is modelled for the two listed patterns only, which are the only ones `correctFile(file, withPattern:)` is called with. In the joined pattern ICU numbers the groups 1 to 4, so on a match of its second alternative `$1` and `$2` are empty and the template yields `: `. The model does not capture that. `ReplaceInRange`, `ReplaceInMatchRange`, `RewriteStep`, `RewriteFromLast` and `CorrectWithPattern` therefore require a pattern other than the join.
- Writing the file is a returned value. The file system, and a write that fails, are not modelled.
- Of the examples listed in the rule's `RuleDescription`, the model works through `let abc: Void`, `func abc(def: Void, ghi: Void) {}`, the string-literal example, `let abc:Void`, `let abc : Void` and `func abc(def: Void, ghi :Void) {}`. The other examples follow from the same general lemmas but are not evaluated one by one.
