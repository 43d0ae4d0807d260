/**
 Properties of single rewrite steps: what each one changes, what it keeps,
 and which steps are idempotent.
 */
module StepFacts {
  import opened Chars
  import opened Patterns
  import opened Substitute
  import opened KeywordSteps

  // ---------------------------------------------------------------------------
  // Rule 1: backticks become double quotes

  predicate Requoted(c: char, d: char) {
    c == '`' && d == '"'
  }

  /**
   The backtick at `j` closes or opens the quoted stretch that the backtick at
   `k` belongs to: it is another backtick on the same line with no backtick
   between them.
   */
  predicate QuotePartner(s: string, k: nat, j: nat) {
    k < |s| && j < |s| && j != k && s[j] == '`'
    && (forall l :: k < l < j ==> s[l] != '`' && s[l] != '\n')
    && (forall l :: j < l < k ==> s[l] != '`' && s[l] != '\n')
  }

  /** The backtick at `k` has a partner on its line. */
  ghost predicate Partnered(s: string, k: nat) {
    exists j :: QuotePartner(s, k, j)
  }

  /**
   Rule 1 keeps the length of the text, and the only change it makes is a
   backtick turned into a double quote; a backtick is changed only where it
   has a partner on its line.
   */
  lemma BackticksOnlyRequote(s: string)
    ensures |Sub(Backticks, s)| == |s|
    ensures forall k :: 0 <= k < |s| ==>
              Sub(Backticks, s)[k] == s[k] || (s[k] == '`' && Sub(Backticks, s)[k] == '"')
    ensures forall k :: 0 <= k < |s| && Sub(Backticks, s)[k] != s[k] ==> Partnered(s, k)
  {
    var m := Matches(Backticks, s);
    forall k | 0 <= k < |s| && m[k].Some?
      ensures |m[k].value.out| == m[k].value.len
      ensures forall j :: 0 <= j < m[k].value.len ==>
                m[k].value.out[j] == s[k + j] || Requoted(s[k + j], m[k].value.out[j])
    {
      MatchesAt(Backticks, s, k);
      MatchIs(Backticks, s, k);
      BacktickRequotes(s, k);
    }
    PointwiseFrom(s, m, 0, Requoted);
    forall k | 0 <= k < |s| && m[k].Some? ensures QuoteHit(s, k, m[k].value) {
      MatchesAt(Backticks, s, k);
      MatchIs(Backticks, s, k);
    }
    PairedFrom(s, m, 0);
  }

  /** `h` at `i` quotes a stretch between two backticks of one line, with no backtick inside. */
  predicate QuoteHit(s: string, i: nat, h: Hit) {
    var j := i + h.len - 1;
    i < j < |s| && s[i] == '`' && s[j] == '`'
    && (forall l :: i < l < j ==> s[l] != '`' && s[l] != '\n')
    && h.out == ['"'] + s[i + 1..j] + ['"']
  }

  /** Every entry of `m` is such a hit, as rule 1's matches are. */
  predicate BacktickTable(s: string, m: seq<Option<Hit>>) {
    Fits(s, m) && forall k :: 0 <= k < |s| && m[k].Some? ==> QuoteHit(s, k, m[k].value)
  }

  /** `t`, the output for `s` from `i` on, differs from `s` only at partnered backticks. */
  ghost predicate ChangedPaired(s: string, t: string, i: nat) {
    |t| == |s| - i && forall k :: i <= k < |s| ==> t[k - i] == s[k] || Partnered(s, k)
  }

  lemma {:induction false} PairedFrom(s: string, m: seq<Option<Hit>>, i: nat)
    requires BacktickTable(s, m) && i <= |s|
    ensures ChangedPaired(s, SubFrom(s, m, i), i)
    decreases |s| - i
  {
    if i == |s| {
      assert SubFrom(s, m, i) == [];
    } else if m[i].None? {
      PairedFrom(s, m, i + 1);
      PairedMiss(s, m, i);
    } else {
      PairedFrom(s, m, i + m[i].value.len);
      PairedHit(s, m, i);
    }
  }

  lemma PairedMiss(s: string, m: seq<Option<Hit>>, i: nat)
    requires BacktickTable(s, m) && i < |s| && m[i].None?
    requires ChangedPaired(s, SubFrom(s, m, i + 1), i + 1)
    ensures ChangedPaired(s, SubFrom(s, m, i), i)
  {
    SubFromMiss(s, m, i);
    var t := SubFrom(s, m, i);
    var rest := SubFrom(s, m, i + 1);
    forall k | i < k < |s| ensures t[k - i] == s[k] || Partnered(s, k) {
      assert t[k - i] == rest[k - (i + 1)];
    }
  }

  /** A hit changes only its two backticks, and each is the other's partner. */
  lemma PairedHit(s: string, m: seq<Option<Hit>>, i: nat)
    requires BacktickTable(s, m) && i < |s| && m[i].Some?
    requires ChangedPaired(s, SubFrom(s, m, i + m[i].value.len), i + m[i].value.len)
    ensures ChangedPaired(s, SubFrom(s, m, i), i)
  {
    var h := m[i].value;
    assert QuoteHit(s, i, h);
    var j := i + h.len - 1;
    SubFromHit(s, m, i);
    var t := SubFrom(s, m, i);
    var rest := SubFrom(s, m, j + 1);
    assert t == h.out + rest;
    assert QuotePartner(s, i, j) && QuotePartner(s, j, i);
    forall k | i <= k < |s| ensures t[k - i] == s[k] || Partnered(s, k) {
      if i < k < j {
        assert t[k - i] == h.out[k - i] == s[i + 1..j][k - i - 1];
      } else if j < k {
        assert t[k - i] == rest[k - (j + 1)];
      }
    }
  }

  /** A hit of rule 1 has the length of the text it replaces and differs from it only in its quotes. */
  lemma BacktickRequotes(s: string, i: nat)
    requires i < |s| && BacktickAt(s, i).Some?
    ensures var h := BacktickAt(s, i).value;
            |h.out| == h.len
            && forall j :: 0 <= j < h.len ==> h.out[j] == s[i + j] || Requoted(s[i + j], h.out[j])
  {
    var h := BacktickAt(s, i).value;
    var e := i + h.len - 1;
    forall j | 0 <= j < h.len ensures h.out[j] == s[i + j] || Requoted(s[i + j], h.out[j]) {
      if 0 < j < h.len - 1 {
        assert h.out[j] == s[i + 1..e][j - 1];
      }
    }
  }

  // ---------------------------------------------------------------------------
  // Rule 3: INT becomes INTEGER

  /**
   Rule 3b never fires after rule 3a: its pattern starts with a whole-word
   `INT`, and rule 3a leaves none.
   */
  lemma IntPrecisionAfterIntWord(s: string)
    ensures Sub(IntPrecision, Sub(IntWord, s)) == Sub(IntWord, s)
  {
    var t := Sub(IntWord, s);
    IntWordLeavesNoInt(s);
    forall k | 0 <= k < |t| ensures Match(IntPrecision, t, k).None? {
      assert !WholeWordAt(t, k, "INT");
    }
    NoMatchIdentity(IntPrecision, t);
  }

  /**
   The spans `re.finditer` reports for rule 3a are exactly the whole-word
   `INT`s of the text, each replaced by `INTEGER`. With `SubIsSplice`, rule 3a
   rewrites those and nothing else.
   */
  lemma IntWordSpans(s: string)
    ensures var f := FindAll(IntWord, s);
            (forall j :: 0 <= j < |f| ==> WholeWordAt(s, f[j].0, "INT") && f[j].1 == Hit(3, "INTEGER"))
            && (forall k: nat :: WholeWordAt(s, k, "INT") ==> exists j :: 0 <= j < |f| && f[j].0 == k)
  {
    var m := Matches(IntWord, s);
    var f := FindAll(IntWord, s);
    forall j | 0 <= j < |f| ensures WholeWordAt(s, f[j].0, "INT") && f[j].1 == Hit(3, "INTEGER") {
      MatchesAt(IntWord, s, f[j].0);
      MatchIs(IntWord, s, f[j].0);
    }
    FindFromCovers(s, m, 0);
    forall k: nat | WholeWordAt(s, k, "INT") ensures exists j :: 0 <= j < |f| && f[j].0 == k {
      MatchesAt(IntWord, s, k);
      MatchIs(IntWord, s, k);
      assert Covered(f, k);
      var j :| 0 <= j < |f| && f[j].0 <= k < f[j].0 + f[j].1.len;
      MatchesAt(IntWord, s, f[j].0);
      MatchIs(IntWord, s, f[j].0);
      IntInsideWord(s, f[j].0, k);
    }
  }

  /** A position strictly inside a whole-word `INT` follows a word character. */
  lemma IntInsideWord(s: string, p: nat, k: nat)
    requires WholeWordAt(s, p, "INT") && p <= k < p + 3
    ensures p < k ==> IsWord(s[k - 1])
  {
    if p < k {
      KeywordChar(s, p, "INT", k - 1 - p);
      LowerClasses(s[k - 1]);
    }
  }

  /** A text in which no character folds to `i` has no `INT` for rule 3a to rewrite. */
  lemma NoIntAfter(s: string, i: nat)
    requires i <= |s|
    requires forall k :: i <= k < |s| ==> Lower(s[k]) != 'i'
    ensures SubFrom(s, Matches(IntWord, s), i) == s[i..]
  {
    var m := Matches(IntWord, s);
    forall k | i <= k < |s| ensures m[k].None? {
      assert Lower(s[k + 0]) != Lower("INT"[0]);
    }
    SelfHitsIdentity(s, m, i);
  }

  /** `INT(11)` becomes `INTEGER(11)`: rule 3a keeps the display width, whatever the digits. */
  lemma IntWithWidth(d: string)
    requires AllIn(d, Digit)
    ensures Sub(IntWord, "INT(" + d + ")") == "INTEGER(" + d + ")"
  {
    var s := "INT(" + d + ")";
    var m := Matches(IntWord, s);
    assert KeywordAt(s, 0, "INT");
    assert m[0] == Some(Hit(3, "INTEGER"));
    forall k | 3 <= k < |s| ensures Lower(s[k]) != 'i' {
      if 4 <= k < |s| - 1 {
        assert s[k] == d[k - 4];
      }
    }
    NoIntAfter(s, 3);
    assert s[3..] == "(" + d + ")";
  }

  /** `TINYINT` is not a whole-word `INT`, so rule 3a leaves it alone. */
  lemma TinyintUntouched()
    ensures Sub(IntWord, "TINYINT(1)") == "TINYINT(1)"
  {
    var s := "TINYINT(1)";
    forall k | 0 <= k < |s| ensures Match(IntWord, s, k).None? {
      if KeywordAt(s, k, "INT") {
        KeywordChar(s, k, "INT", 0);
        assert k == 1 || k == 4;
      }
    }
    NoMatchIdentity(IntWord, s);
  }

  // ---------------------------------------------------------------------------
  // Rule 16: a space after the comment marker

  /** The marker `--` followed by whitespace at `k`. */
  predicate CommentMarkBefore(s: string, k: nat) {
    2 <= k < |s| && s[k - 2] == '-' && s[k - 1] == '-' && IsSpace(s[k])
  }

  /**
   Rule 16 keeps the length of the text, and the only change it makes is a
   whitespace character right after `--` turned into a space.
   */
  lemma CommentOnlyRespaces(s: string)
    ensures |Sub(CommentSpace, s)| == |s|
    ensures forall k :: 0 <= k < |s| ==>
              Sub(CommentSpace, s)[k] == s[k] || (CommentMarkBefore(s, k) && Sub(CommentSpace, s)[k] == ' ')
  {
    var m := Matches(CommentSpace, s);
    forall k | 0 <= k < |s| ensures m[k] == CommentAt(s, k) {
      MatchesAt(CommentSpace, s, k);
      MatchIs(CommentSpace, s, k);
    }
    CommentKeptFrom(s, m, 0);
    CommentSpaced(s);
  }

  /** The text with every whitespace character right after `--` made a space. */
  function SpaceAfterMarks(s: string): (t: string)
    ensures |t| == |s|
  {
    seq(|s|, k requires 0 <= k < |s| => if CommentMarkBefore(s, k) then ' ' else s[k])
  }

  /** Rule 16 is exactly `SpaceAfterMarks`. */
  lemma CommentIsSpaceAfterMarks(s: string)
    ensures Sub(CommentSpace, s) == SpaceAfterMarks(s)
  {
    CommentOnlyRespaces(s);
    CommentSpaced(s);
  }

  /** `t`, the output for `s` from `i` on, keeps every character of `s` that does not follow `--`. */
  predicate KeptFrom(s: string, t: string, i: nat) {
    |t| == |s| - i && forall k: nat :: i <= k < |s| && !CommentMarkBefore(s, k) ==> t[k - i] == s[k]
  }

  lemma {:induction false} CommentKeptFrom(s: string, m: seq<Option<Hit>>, i: nat)
    requires CommentTable(s, m) && i <= |s|
    ensures KeptFrom(s, SubFrom(s, m, i), i)
    decreases |s| - i
  {
    if i == |s| {
      assert SubFrom(s, m, i) == [];
    } else if m[i].None? {
      CommentKeptFrom(s, m, i + 1);
      CommentKeptMiss(s, m, i);
    } else {
      CommentKeptFrom(s, m, i + 3);
      CommentKeptHit(s, m, i);
    }
  }

  lemma CommentKeptMiss(s: string, m: seq<Option<Hit>>, i: nat)
    requires CommentTable(s, m) && i < |s| && m[i].None?
    requires KeptFrom(s, SubFrom(s, m, i + 1), i + 1)
    ensures KeptFrom(s, SubFrom(s, m, i), i)
  {
    SubFromMiss(s, m, i);
    var t := SubFrom(s, m, i);
    var rest := SubFrom(s, m, i + 1);
    forall k: nat | i < k < |s| && !CommentMarkBefore(s, k) ensures t[k - i] == s[k] {
      assert t[k - i] == rest[k - (i + 1)];
    }
  }

  lemma CommentKeptHit(s: string, m: seq<Option<Hit>>, i: nat)
    requires CommentTable(s, m) && i < |s| && m[i].Some?
    requires i + 3 <= |s| && KeptFrom(s, SubFrom(s, m, i + 3), i + 3)
    ensures KeptFrom(s, SubFrom(s, m, i), i)
  {
    assert m[i] == CommentAt(s, i);
    SubFromHit(s, m, i);
    var t := SubFrom(s, m, i);
    var rest := SubFrom(s, m, i + 3);
    assert t == "-- " + rest;
    assert CommentMarkBefore(s, i + 2);
    forall k: nat | i <= k < |s| && !CommentMarkBefore(s, k) ensures t[k - i] == s[k] {
      if k >= i + 3 {
        assert t[k - i] == rest[k - (i + 3)];
      }
    }
  }

  /** Rule 16 turns every whitespace character that follows `--` into a space. */
  lemma CommentSpaced(s: string)
    ensures |Sub(CommentSpace, s)| == |s|
    ensures forall k: nat :: CommentMarkBefore(s, k) ==> Sub(CommentSpace, s)[k] == ' '
  {
    var m := Matches(CommentSpace, s);
    forall k | 0 <= k < |s| ensures m[k] == CommentAt(s, k) {
      MatchesAt(CommentSpace, s, k);
      MatchIs(CommentSpace, s, k);
    }
    CommentSpacedFrom(s, m, 0);
  }

  /** `m` holds rule 16's match at every position of `s`. */
  predicate CommentTable(s: string, m: seq<Option<Hit>>) {
    Fits(s, m) && forall k :: 0 <= k < |s| ==> m[k] == CommentAt(s, k)
  }

  /** `t`, the output for `s` from `i` on, has a space after every `--` of `s` past `i + 1`. */
  predicate SpacedFrom(s: string, t: string, i: nat) {
    |t| == |s| - i && forall k: nat :: i + 2 <= k < |s| && CommentMarkBefore(s, k) ==> t[k - i] == ' '
  }

  lemma {:induction false} CommentSpacedFrom(s: string, m: seq<Option<Hit>>, i: nat)
    requires CommentTable(s, m) && i <= |s|
    ensures SpacedFrom(s, SubFrom(s, m, i), i)
    decreases |s| - i
  {
    if i == |s| {
      assert SubFrom(s, m, i) == [];
    } else if m[i].None? {
      CommentSpacedFrom(s, m, i + 1);
      CommentSpacedMiss(s, m, i);
    } else {
      CommentSpacedFrom(s, m, i + 3);
      CommentSpacedHit(s, m, i);
    }
  }

  lemma CommentSpacedMiss(s: string, m: seq<Option<Hit>>, i: nat)
    requires CommentTable(s, m) && i < |s| && m[i].None?
    requires SpacedFrom(s, SubFrom(s, m, i + 1), i + 1)
    ensures SpacedFrom(s, SubFrom(s, m, i), i)
  {
    SubFromMiss(s, m, i);
    var t := SubFrom(s, m, i);
    var rest := SubFrom(s, m, i + 1);
    forall k: nat | i + 2 <= k && CommentMarkBefore(s, k) ensures t[k - i] == ' ' {
      assert k != i + 2 by {
        assert m[i] == CommentAt(s, i);
      }
      assert t[k - i] == rest[k - (i + 1)];
    }
  }

  lemma CommentSpacedHit(s: string, m: seq<Option<Hit>>, i: nat)
    requires CommentTable(s, m) && i < |s| && m[i].Some?
    requires i + 3 <= |s| && SpacedFrom(s, SubFrom(s, m, i + 3), i + 3)
    ensures SpacedFrom(s, SubFrom(s, m, i), i)
  {
    assert m[i] == CommentAt(s, i);
    SubFromHit(s, m, i);
    var t := SubFrom(s, m, i);
    var rest := SubFrom(s, m, i + 3);
    assert t == "-- " + rest;
    forall k: nat | i + 2 <= k && CommentMarkBefore(s, k) ensures t[k - i] == ' ' {
      if k >= i + 5 {
        assert t[k - i] == rest[k - (i + 3)];
      }
    }
  }

  /** Applying rule 16 a second time changes nothing. */
  lemma CommentIdempotent(s: string)
    ensures Sub(CommentSpace, Sub(CommentSpace, s)) == Sub(CommentSpace, s)
  {
    var t := Sub(CommentSpace, s);
    CommentOnlyRespaces(s);
    CommentSpaced(s);
    var m := Matches(CommentSpace, t);
    forall k | 0 <= k < |t| && m[k].Some?
      ensures m[k].value.out == t[k..k + m[k].value.len]
    {
      MatchesAt(CommentSpace, t, k);
      MatchIs(CommentSpace, t, k);
      assert CommentMarkBefore(s, k + 2);
    }
    SelfHitsIdentity(t, m, 0);
  }

  // ---------------------------------------------------------------------------
  // Rule 13: TRUE and FALSE in lower case

  /** The start of the run of word characters that ends at `j`. */
  function WordStart(s: string, j: nat): (w: nat)
    requires j <= |s|
    ensures w <= j && (w == 0 || !IsWord(s[w - 1]))
    ensures forall k :: w <= k < j ==> IsWord(s[k])
  {
    if j > 0 && IsWord(s[j - 1]) then WordStart(s, j - 1) else j
  }

  /** `s[j]` belongs to a whole-word occurrence of `kw`. */
  predicate InWholeWord(s: string, j: nat, kw: string)
    requires j < |s|
  {
    IsWord(s[j]) && WholeWordAt(s, WordStart(s, j), kw)
  }

  /** The reference for rule 13: exactly the characters of whole-word `kw` are lower-cased. */
  function LowerWords(s: string, kw: string): (t: string)
    ensures |t| == |s|
    ensures forall j :: 0 <= j < |s| ==> t[j] == if InWholeWord(s, j, kw) then Lower(s[j]) else s[j]
  {
    seq(|s|, j requires 0 <= j < |s| => if InWholeWord(s, j, kw) then Lower(s[j]) else s[j])
  }

  /** A keyword made of letters only, as `TRUE` and `FALSE` are. */
  predicate Letters(kw: string) {
    |kw| > 0 && forall j :: 0 <= j < |kw| ==> 'A' <= kw[j] <= 'Z'
  }

  /** Inside a whole-word occurrence at `i`, the word starts at `i`. */
  lemma {:induction false} WordStartInside(s: string, i: nat, kw: string, j: nat)
    requires Letters(kw) && WholeWordAt(s, i, kw) && i <= j < i + |kw|
    ensures IsWord(s[j]) && WordStart(s, j) == i
    decreases j
  {
    KeywordChar(s, i, kw, j - i);
    LowerClasses(s[j]);
    if j > i {
      WordStartInside(s, i, kw, j - 1);
    }
  }

  /** The scan position `i` is not strictly inside a whole-word occurrence of `kw`. */
  predicate NotInside(s: string, kw: string, i: nat) {
    i >= |s| || !InWholeWord(s, i, kw) || WordStart(s, i) == i
  }

  /** The scan of rule 13 from `i` agrees with the reference from `i` on. */
  predicate LowerAgrees(s: string, m: seq<Option<Hit>>, kw: string, i: nat)
    requires Fits(s, m) && i <= |s|
  {
    |SubFrom(s, m, i)| == |s| - i
    && forall j :: i <= j < |s| ==> SubFrom(s, m, i)[j - i] == LowerWords(s, kw)[j]
  }

  lemma {:induction false} LowerWordFrom(s: string, m: seq<Option<Hit>>, kw: string, i: nat)
    requires Letters(kw) && Fits(s, m) && i <= |s|
    requires forall k :: 0 <= k < |s| ==> m[k] == LowerWordAt(s, k, kw)
    requires NotInside(s, kw, i)
    ensures LowerAgrees(s, m, kw, i)
    decreases |s| - i
  {
    if i < |s| {
      if WholeWordAt(s, i, kw) {
        LowerWordFrom(s, m, kw, i + |kw|);
        LowerWordHit(s, m, kw, i);
      } else {
        LowerWordMissNext(s, kw, i);
        LowerWordFrom(s, m, kw, i + 1);
        LowerWordMiss(s, m, kw, i);
      }
    }
  }

  lemma LowerWordHit(s: string, m: seq<Option<Hit>>, kw: string, i: nat)
    requires Letters(kw) && Fits(s, m) && i < |s|
    requires m[i] == LowerWordAt(s, i, kw) && WholeWordAt(s, i, kw)
    requires LowerAgrees(s, m, kw, i + |kw|)
    ensures LowerAgrees(s, m, kw, i)
  {
    var n := i + |kw|;
    var t := SubFrom(s, m, i);
    var rest := SubFrom(s, m, n);
    SubFromHit(s, m, i);
    assert t == LowerAll(kw) + rest;
    forall j | i <= j < |s| ensures t[j - i] == LowerWords(s, kw)[j] {
      if j < n {
        assert t[j - i] == LowerAll(kw)[j - i];
        WordStartInside(s, i, kw, j);
        KeywordChar(s, i, kw, j - i);
        LowerClasses(s[j]);
      } else {
        assert t[j - i] == rest[j - n];
      }
    }
  }

  lemma LowerWordMissNext(s: string, kw: string, i: nat)
    requires Letters(kw) && i < |s| && !WholeWordAt(s, i, kw) && NotInside(s, kw, i)
    ensures NotInside(s, kw, i + 1)
  {
    if i + 1 < |s| && IsWord(s[i]) {
      assert WordStart(s, i + 1) == WordStart(s, i);
    }
  }

  lemma LowerWordMiss(s: string, m: seq<Option<Hit>>, kw: string, i: nat)
    requires Letters(kw) && Fits(s, m) && i < |s|
    requires m[i] == LowerWordAt(s, i, kw) && !WholeWordAt(s, i, kw) && NotInside(s, kw, i)
    requires LowerAgrees(s, m, kw, i + 1)
    ensures LowerAgrees(s, m, kw, i)
  {
    SubFromMiss(s, m, i);
    var t := SubFrom(s, m, i);
    var rest := SubFrom(s, m, i + 1);
    forall j | i < j < |s| ensures t[j - i] == LowerWords(s, kw)[j] {
      assert t[j - i] == rest[j - (i + 1)];
    }
    assert LowerWords(s, kw)[i] == s[i];
  }

  /** Rule 13a lower-cases exactly the whole-word occurrences of `TRUE`. */
  lemma TrueIsLowerWords(s: string)
    ensures Sub(TrueWord, s) == LowerWords(s, "TRUE")
  {
    LowerWordFrom(s, Matches(TrueWord, s), "TRUE", 0);
  }

  /** Rule 13b lower-cases exactly the whole-word occurrences of `FALSE`. */
  lemma FalseIsLowerWords(s: string)
    ensures Sub(FalseWord, s) == LowerWords(s, "FALSE")
  {
    LowerWordFrom(s, Matches(FalseWord, s), "FALSE", 0);
  }

  /** Two texts that agree up to case: same length, same folded characters, same word characters. */
  predicate Alike(s: string, u: string) {
    |s| == |u| && forall j :: 0 <= j < |s| ==> Lower(u[j]) == Lower(s[j]) && IsWord(u[j]) == IsWord(s[j])
  }

  lemma {:induction false} AlikeWordStart(s: string, u: string, j: nat)
    requires Alike(s, u) && j <= |s|
    ensures WordStart(u, j) == WordStart(s, j)
    decreases j
  {
    if j > 0 {
      AlikeWordStart(s, u, j - 1);
    }
  }

  /** Texts that agree up to case have the same whole-word occurrences. */
  lemma AlikeWholeWords(s: string, u: string, kw: string, j: nat)
    requires Alike(s, u) && j < |s|
    ensures InWholeWord(u, j, kw) == InWholeWord(s, j, kw)
  {
    AlikeWordStart(s, u, j);
  }

  /** Lower-casing whole words leaves a text that agrees with the original up to case. */
  lemma LowerWordsAlike(s: string, kw: string)
    ensures Alike(s, LowerWords(s, kw))
    ensures Alike(LowerWords(s, kw), s)
  {
    forall j | 0 <= j < |s| {
      LowerClasses(s[j]);
    }
  }

  /** Rule 13: both keyword steps, in source order. */
  function Booleans(s: string): string {
    Sub(FalseWord, Sub(TrueWord, s))
  }

  /** `TRUE` and `FALSE` cannot both be the word that starts at one place. */
  lemma TrueNotFalse(s: string, w: nat)
    requires WholeWordAt(s, w, "TRUE")
    ensures !WholeWordAt(s, w, "FALSE")
  {
    KeywordChar(s, w, "TRUE", 0);
    assert Lower(s[w + 0]) == 't' != Lower("FALSE"[0]);
  }

  /** Applying both keyword steps a second time changes nothing. */
  lemma BooleansIdempotent(s: string)
    ensures Booleans(Booleans(s)) == Booleans(s)
  {
    var u := LowerWords(s, "TRUE");
    var v := LowerWords(u, "FALSE");
    var u2 := LowerWords(v, "TRUE");
    var v2 := LowerWords(u2, "FALSE");
    TrueIsLowerWords(s);
    FalseIsLowerWords(u);
    TrueIsLowerWords(v);
    FalseIsLowerWords(u2);
    LowerWordsAlike(s, "TRUE");
    LowerWordsAlike(u, "FALSE");
    LowerWordsAlike(v, "TRUE");
    forall j | 0 <= j < |s| ensures v2[j] == v[j] {
      AlikeWholeWords(s, u, "FALSE", j);
      AlikeWholeWords(u, v, "TRUE", j);
      AlikeWholeWords(s, u, "TRUE", j);
      AlikeWholeWords(v, u2, "FALSE", j);
      AlikeWholeWords(u, v, "FALSE", j);
      LowerClasses(s[j]);
      if InWholeWord(s, j, "TRUE") {
        TrueNotFalse(s, WordStart(s, j));
      }
    }
  }
}
