/**
 The character classes and the case folding that the rewrite patterns use.

 Python's `re` module works on Unicode text: `\w`, `\d` and `\s` are Unicode
 classes and `re.IGNORECASE` folds Unicode case. This model restricts all of
 them to ASCII: `\w` is `[A-Za-z0-9_]`, `\d` is `[0-9]`, `\s` is the ASCII
 characters Python counts as whitespace (space, tab through carriage return,
 and the four separators 0x1C-0x1F), and case-insensitive comparison folds
 only `A`-`Z`. On ASCII text the two agree.
 */
module Chars {

  datatype Option<+T> = None | Some(value: T)

  predicate IsWord(c: char) {
    'a' <= c <= 'z' || 'A' <= c <= 'Z' || '0' <= c <= '9' || c == '_'
  }

  predicate IsDigit(c: char) {
    '0' <= c <= '9'
  }

  predicate IsSpace(c: char) {
    c == ' ' || '\t' <= c <= '\r' || '\U{1C}' <= c <= '\U{1F}'
  }

  /** ASCII lower-casing; every other character is left alone. */
  function Lower(c: char): (d: char)
    ensures 'A' <= c <= 'Z' ==> 'a' <= d <= 'z' && d as int == c as int + 32
    ensures !('A' <= c <= 'Z') ==> d == c
  {
    if 'A' <= c <= 'Z' then (c as int + 32) as char else c
  }

  /** Lower-casing is a projection and keeps the word/space/digit class of a character. */
  lemma LowerClasses(c: char)
    ensures Lower(Lower(c)) == Lower(c)
    ensures IsWord(Lower(c)) == IsWord(c)
    ensures IsSpace(Lower(c)) == IsSpace(c)
    ensures IsDigit(Lower(c)) == IsDigit(c)
  {
  }

  /** The classes a greedy run `X+` / `X*` can range over. */
  datatype Class = Word | Digit | Space | NotNewline | NotComma | NotCloseParen

  predicate In(k: Class, c: char) {
    match k
    case Word => IsWord(c)
    case Digit => IsDigit(c)
    case Space => IsSpace(c)
    case NotNewline => c != '\n'
    case NotComma => c != ','
    case NotCloseParen => c != ')'
  }

  predicate AllIn(x: string, k: Class) {
    forall j :: 0 <= j < |x| ==> In(k, x[j])
  }

  /** The end of the longest run of `k` characters starting at `i`: what a greedy `k*` consumes. */
  function RunEnd(s: string, i: nat, k: Class): (e: nat)
    requires i <= |s|
    ensures i <= e <= |s|
    ensures forall j :: i <= j < e ==> In(k, s[j])
    ensures e == |s| || !In(k, s[e])
    decreases |s| - i
  {
    if i < |s| && In(k, s[i]) then RunEnd(s, i + 1, k) else i
  }

  /** A maximal run is the one `RunEnd` finds. */
  lemma {:induction false} RunEndIs(s: string, i: nat, e: nat, k: Class)
    requires i <= e <= |s|
    requires forall j :: i <= j < e ==> In(k, s[j])
    requires e == |s| || !In(k, s[e])
    ensures RunEnd(s, i, k) == e
    decreases e - i
  {
    if i < e {
      RunEndIs(s, i + 1, e, k);
    }
  }

  /** A range of `k` characters, seen as a slice. */
  lemma RunSlice(s: string, i: nat, e: nat, k: Class)
    requires i <= e <= |s|
    requires forall j :: i <= j < e ==> In(k, s[j])
    ensures AllIn(s[i..e], k)
  {
  }

  /** A run of `k` characters from `i` ends no later than the longest one, and inside it only at a `k` character. */
  lemma RunCovers(s: string, i: nat, e: nat, k: Class)
    requires i <= e <= |s| && AllIn(s[i..e], k)
    ensures e <= RunEnd(s, i, k)
    ensures e < RunEnd(s, i, k) ==> In(k, s[e])
  {
    forall j | i <= j < e ensures In(k, s[j]) {
      assert s[i..e][j - i] == s[j];
    }
  }

  lemma AllInPrefix(x: string, n: nat, k: Class)
    requires n <= |x| && AllIn(x, k)
    ensures AllIn(x[..n], k)
  {
  }

  lemma SliceSplit(s: string, i: nat, j: nat, k: nat)
    requires i <= j <= k <= |s|
    ensures s[i..k] == s[i..j] + s[j..k]
  {
  }

  lemma SuffixSplit(s: string, i: nat, j: nat)
    requires i <= j <= |s|
    ensures s[i..] == s[i..j] + s[j..]
  {
  }

  /** The end of the line that position `i` is on: how far Python's `.` can reach from `i`. */
  function LineEnd(s: string, i: nat): (e: nat)
    requires i <= |s|
    ensures i <= e <= |s|
    ensures forall j :: i <= j < e ==> s[j] != '\n'
    ensures e == |s| || s[e] == '\n'
  {
    RunEnd(s, i, NotNewline)
  }

  /** The first position in `[i, e)` that holds `c`, if any. */
  function First(s: string, i: nat, e: nat, c: char): (r: Option<nat>)
    requires i <= e <= |s|
    ensures r.Some? ==> i <= r.value < e && s[r.value] == c
    ensures r.Some? ==> forall j :: i <= j < r.value ==> s[j] != c
    ensures r.None? ==> forall j :: i <= j < e ==> s[j] != c
    decreases e - i
  {
    if i == e then None
    else if s[i] == c then Some(i)
    else First(s, i + 1, e, c)
  }

  /** The first occurrence is the one `First` finds. */
  lemma {:induction false} FirstIs(s: string, i: nat, e: nat, c: char, p: nat)
    requires i <= p < e <= |s| && s[p] == c
    requires forall j :: i <= j < p ==> s[j] != c
    ensures First(s, i, e, c) == Some(p)
    decreases p - i
  {
    if i < p {
      FirstIs(s, i + 1, e, c, p);
    }
  }

  /** `kw` occurs at `i`, compared under ASCII case folding. */
  predicate KeywordAt(s: string, i: nat, kw: string) {
    i + |kw| <= |s| && forall j :: 0 <= j < |kw| ==> Lower(s[i + j]) == Lower(kw[j])
  }

  /** One position of a keyword match; a non-letter of the keyword is matched exactly. */
  lemma KeywordChar(s: string, i: nat, kw: string, j: nat)
    requires KeywordAt(s, i, kw) && j < |kw|
    ensures Lower(s[i + j]) == Lower(kw[j])
    ensures !('A' <= kw[j] <= 'Z') && !('a' <= kw[j] <= 'z') ==> s[i + j] == kw[j]
  {
  }

  /** A keyword match also matches every prefix of the keyword. */
  lemma KeywordPrefix(s: string, i: nat, kw: string, n: nat)
    requires KeywordAt(s, i, kw) && n <= |kw|
    ensures KeywordAt(s, i, kw[..n])
  {
    forall j | 0 <= j < n ensures Lower(s[i + j]) == Lower(kw[..n][j]) {
      KeywordChar(s, i, kw, j);
    }
  }

  /** `\b` before a word character at `i`: the previous character is not a word character. */
  predicate BoundaryBefore(s: string, i: nat) {
    i == 0 || (i <= |s| && !IsWord(s[i - 1]))
  }

  /** `\b` after a word character ending at `e`: the next character is not a word character. */
  predicate BoundaryAfter(s: string, e: nat) {
    e >= |s| || !IsWord(s[e])
  }

  /** `\bkw\b` for a keyword made of word characters. */
  predicate WholeWordAt(s: string, i: nat, kw: string) {
    KeywordAt(s, i, kw) && BoundaryBefore(s, i) && BoundaryAfter(s, i + |kw|)
  }

  /** The start of the run of whitespace that ends at `e`, scanning backwards. */
  function SpaceRunStart(x: string, e: nat): (b: nat)
    requires e <= |x|
    ensures b <= e
    ensures forall j :: b <= j < e ==> IsSpace(x[j])
    ensures b == 0 || !IsSpace(x[b - 1])
  {
    if e > 0 && IsSpace(x[e - 1]) then SpaceRunStart(x, e - 1) else e
  }

  /** Python's `str.strip()`: drop leading and trailing whitespace. */
  function Strip(x: string): (y: string)
    ensures |y| > 0 ==> !IsSpace(y[0]) && !IsSpace(y[|y| - 1])
    ensures AllIn(x, Space) ==> y == []
    ensures !AllIn(x, Space) ==>
              var a := RunEnd(x, 0, Space);
              a + |y| <= |x| && x[a..a + |y|] == y && AllIn(x[a + |y|..], Space)
  {
    var a := RunEnd(x, 0, Space);
    var b := SpaceRunStart(x, |x|);
    if a < b then x[a..b] else []
  }
}
