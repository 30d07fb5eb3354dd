/** The two character classes the colon patterns use, as the ICU regular
    expression engine behind NSRegularExpression defines them, and the
    maximal run of one class starting at a position. */
module Characters {

  /** `\w`: a word character. Only the ASCII part of ICU's class is
      modelled: letters, digits and the connector `_`. */
  function IsWordChar(c: char): (b: bool)
    ensures b ==> '0' <= c <= 'z' && c != ':' && c != '['
  {
    ('a' <= c <= 'z') || ('A' <= c <= 'Z') || ('0' <= c <= '9') || c == '_'
  }

  /** `\s`: ICU's white space, the Unicode White_Space property: the
      controls tab through carriage return, next line, and the space,
      line and paragraph separators. No word character, colon or bracket is
      white space. */
  function IsSpace(c: char): (b: bool)
    ensures b ==> !IsWordChar(c) && c != ':' && c != '['
    ensures c == ' ' || c == '\t' || c == '\n' || c == '\r' ==> b
  {
    ('\t' <= c <= '\r') || c == '\U{0085}' || c == ' '
    || c == '\U{00A0}' || c == '\U{1680}' || ('\U{2000}' <= c <= '\U{200A}')
    || c == '\U{2028}' || c == '\U{2029}' || c == '\U{202F}' || c == '\U{205F}'
    || c == '\U{3000}'
  }

  datatype CharClass = Word | Space

  predicate InClass(c: char, cls: CharClass) {
    match cls
    case Word => IsWordChar(c)
    case Space => IsSpace(c)
  }

  predicate AllIn(s: string, cls: CharClass) {
    forall k :: 0 <= k < |s| ==> InClass(s[k], cls)
  }

  predicate NoSpace(s: string) {
    forall k :: 0 <= k < |s| ==> !IsSpace(s[k])
  }

  /** The end of the longest run of `cls` characters of `t` that starts at
      `i`: what a greedy `\w+`, `\s+` or `\s*` consumes. */
  function RunEnd(t: string, i: nat, cls: CharClass): (r: nat)
    requires i <= |t|
    ensures i <= r <= |t|
    ensures AllIn(t[i..r], cls)
    ensures r == |t| || !InClass(t[r], cls)
    decreases |t| - i
  {
    if i < |t| && InClass(t[i], cls) then RunEnd(t, i + 1, cls) else i
  }

  /** A run end is determined by the two facts RunEnd promises. */
  lemma RunEndUnique(t: string, i: nat, cls: CharClass, r: nat)
    requires i <= r <= |t|
    requires AllIn(t[i..r], cls)
    requires r == |t| || !InClass(t[r], cls)
    ensures RunEnd(t, i, cls) == r
  {
  }

  /** A class property of a slice of a slice carries over to the same
      characters taken directly from the whole text. */
  lemma AllInWithin(t: string, a: nat, b: nat, x: nat, y: nat, cls: CharClass)
    requires a <= b <= |t| && x <= y <= b - a
    requires AllIn(t[a..b][x..y], cls)
    ensures AllIn(t[a + x..a + y], cls)
  {
    var u := t[a + x..a + y];
    forall j | 0 <= j < |u| ensures InClass(u[j], cls) {
      assert u[j] == t[a..b][x..y][j];
    }
  }

  /** A slice of a slice is a slice of the whole text. */
  lemma SliceOfSlice(t: string, a: nat, b: nat, x: nat, y: nat)
    requires a <= b <= |t| && x <= y <= b - a
    ensures t[a..b][x..y] == t[a + x..a + y]
  {
    var u, v := t[a..b][x..y], t[a + x..a + y];
    assert |u| == |v|;
    forall j | 0 <= j < |u| ensures u[j] == v[j] {
      assert u[j] == t[a + x + j];
    }
  }
}
