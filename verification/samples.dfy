/**
 Single steps of the rewrite on concrete statements, showing the behaviour
 of the code, including where it differs from what the comments next to
 each step suggest.
 */
module Samples {
  import opened Chars
  import opened Patterns
  import opened Substitute
  import opened PatternFacts
  import opened UnsignedStep

  /** Rule 9 swaps the two numbers of `LIMIT offset, count`. */
  lemma LimitSwapsNumbers(s: string)
    requires s == "LIMIT 10, 20"
    ensures Sub(Limit, s) == "LIMIT 20 OFFSET 10"
  {
    LimitSub(s, Limit);
  }

  lemma LimitSub(s: string, r: Rule)
    requires s == "LIMIT 10, 20" && r == Limit
    ensures Sub(r, s) == "LIMIT 20 OFFSET 10"
  {
    LimitMatch(s);
    MatchesAt(r, s, 0);
    SubOnce(r, s, 0, Hit(12, "LIMIT 20 OFFSET 10"));
  }

  lemma LimitMatch(s: string)
    requires s == "LIMIT 10, 20"
    ensures LimitAt(s, 0) == Some(Hit(12, "LIMIT 20 OFFSET 10"))
  {
    LimitRuns(s);
    LimitText(s[10..12], s[6..8]);
  }

  lemma LimitRuns(s: string)
    requires s == "LIMIT 10, 20"
    ensures LimitSplit(s, 0) == Some((6, 8, 8, 10, 12))
    ensures s[10..12] == "20" && s[6..8] == "10"
  {
    assert KeywordAt(s, 0, "LIMIT");
    RunEndIs(s, 5, 6, Space);
    RunEndIs(s, 6, 8, Digit);
    RunEndIs(s, 8, 8, Space);
    RunEndIs(s, 9, 10, Space);
    RunEndIs(s, 10, 12, Digit);
    assert s[8] == ',';
  }

  lemma LimitText(count: string, offset: string)
    requires count == "20" && offset == "10"
    ensures "LIMIT " + count + " OFFSET " + offset == "LIMIT 20 OFFSET 10"
  {
  }

  /**
   Rule 12 keeps a `SEPARATOR` clause inside the aggregated expression and
   always passes `','` as the separator.
   */
  lemma GroupConcatIgnoresSeparator(s: string)
    requires s == "GROUP_CONCAT(name SEPARATOR ';')"
    ensures Sub(GroupConcat, s) == "STRING_AGG(name SEPARATOR ';', ',')"
  {
    GroupConcatSub(s, GroupConcat);
  }

  lemma GroupConcatSub(s: string, r: Rule)
    requires s == "GROUP_CONCAT(name SEPARATOR ';')" && r == GroupConcat
    ensures Sub(r, s) == "STRING_AGG(name SEPARATOR ';', ',')"
  {
    GroupConcatMatch(s);
    MatchesAt(r, s, 0);
    SubOnce(r, s, 0, Hit(32, "STRING_AGG(name SEPARATOR ';', ',')"));
  }

  lemma GroupConcatMatch(s: string)
    requires s == "GROUP_CONCAT(name SEPARATOR ';')"
    ensures GroupConcatAt(s, 0) == Some(Hit(32, "STRING_AGG(name SEPARATOR ';', ',')"))
  {
    GroupConcatArgument(s);
    assert KeywordAt(s, 0, "GROUP_CONCAT(");
    FirstIs(s, 13, 32, ')', 31);
    AggSample(s[13..31]);
  }

  lemma GroupConcatArgument(s: string)
    requires s == "GROUP_CONCAT(name SEPARATOR ';')"
    ensures s[13..31] == "name SEPARATOR ';'"
    ensures forall j :: 13 <= j < 31 ==> s[j] != ')'
  {
  }

  lemma AggSample(x: string)
    requires x == "name SEPARATOR ';'"
    ensures "STRING_AGG(" + x + ", ',')" == "STRING_AGG(name SEPARATOR ';', ',')"
  {
  }

  /**
   Rule 15 removes the `ENGINE` and `DEFAULT CHARSET` clauses but not the
   whitespace between them.
   */
  lemma TableOptionsLeaveSpace(s: string)
    requires s == "ENGINE=InnoDB DEFAULT CHARSET=utf8"
    ensures Sub(DefaultCharset, Sub(Engine, s)) == " "
  {
    EngineRemoved(s, Engine);
    EngineRest(s);
    CharsetRemoved(s[13..], DefaultCharset);
  }

  lemma EngineRemoved(s: string, r: Rule)
    requires s == "ENGINE=InnoDB DEFAULT CHARSET=utf8" && r == Engine
    ensures Sub(r, s) == s[13..]
  {
    EngineHit(s, "ENGINE");
    EngineOnlyAtStart(s, r);
    MatchesAt(r, s, 0);
    assert Matches(r, s)[0] == Some(Hit(13, []));
    SubOnce(r, s, 0, Hit(13, []));
    assert s[..0] == [];
  }

  lemma EngineRest(s: string)
    requires s == "ENGINE=InnoDB DEFAULT CHARSET=utf8"
    ensures s[13..] == " DEFAULT CHARSET=utf8"
  {
  }

  lemma EngineOnlyAtStart(s: string, r: Rule)
    requires s == "ENGINE=InnoDB DEFAULT CHARSET=utf8" && r == Engine
    ensures forall k :: 13 <= k < |s| ==> Matches(r, s)[k].None?
  {
    forall k | 13 <= k < |s| ensures Matches(r, s)[k].None? {
      EngineNowhereElse(s, k);
      MatchesAt(r, s, k);
    }
  }

  lemma EngineHit(s: string, kw: string)
    requires s == "ENGINE=InnoDB DEFAULT CHARSET=utf8" && kw == "ENGINE"
    ensures TableOptionAt(s, 0, kw) == Some(Hit(13, []))
  {
    EngineText(s, kw);
    TableOptionIs(s, 0, kw, 13);
  }

  lemma EngineText(s: string, kw: string)
    requires s == "ENGINE=InnoDB DEFAULT CHARSET=utf8" && kw == "ENGINE"
    ensures KeywordAt(s, 0, kw)
    ensures s[6] == '=' && !IsSpace(s[6]) && !IsSpace(s[7])
    ensures forall j :: 7 <= j < 13 ==> IsWord(s[j])
    ensures !IsWord(s[13])
  {
    assert KeywordAt(s, 0, kw);
  }

  /** `kw=word` at `i`, with no whitespace around `=`, is a rule 15 match that ends with the word. */
  lemma TableOptionIs(s: string, i: nat, kw: string, g: nat)
    requires i + |kw| + 1 < g <= |s| && KeywordAt(s, i, kw)
    requires s[i + |kw|] == '=' && !IsSpace(s[i + |kw|]) && !IsSpace(s[i + |kw| + 1])
    requires forall j :: i + |kw| + 1 <= j < g ==> IsWord(s[j])
    requires g == |s| || !IsWord(s[g])
    ensures TableOptionAt(s, i, kw) == Some(Hit(g - i, []))
  {
    var e := i + |kw|;
    RunEndIs(s, e, e, Space);
    RunEndIs(s, e + 1, e + 1, Space);
    RunEndIs(s, e + 1, g, Word);
  }

  lemma EngineNowhereElse(s: string, k: nat)
    requires s == "ENGINE=InnoDB DEFAULT CHARSET=utf8" && 13 <= k < |s|
    ensures !KeywordAt(s, k, "ENGINE")
  {
    if k + 6 <= |s| {
      assert !(Lower(s[k + 0]) == Lower("ENGINE"[0]) && Lower(s[k + 1]) == Lower("ENGINE"[1]));
    }
  }

  lemma CharsetRemoved(t: string, r: Rule)
    requires t == " DEFAULT CHARSET=utf8" && r == DefaultCharset
    ensures Sub(r, t) == " "
  {
    CharsetMatches(t, r);
    SubOnce(r, t, 1, Hit(20, []));
    assert t[..1] == " " && t[21..] == [];
  }

  lemma CharsetMatches(t: string, r: Rule)
    requires t == " DEFAULT CHARSET=utf8" && r == DefaultCharset
    ensures Matches(r, t)[1] == Some(Hit(20, []))
    ensures Matches(r, t)[0].None?
  {
    CharsetHit(t, "DEFAULT CHARSET");
    MatchesAt(r, t, 1);
    CharsetNotAtStart(t, "DEFAULT CHARSET");
    MatchesAt(r, t, 0);
  }

  lemma CharsetNotAtStart(t: string, kw: string)
    requires t == " DEFAULT CHARSET=utf8" && kw == "DEFAULT CHARSET"
    ensures !KeywordAt(t, 0, kw)
  {
    assert Lower(t[0 + 0]) != Lower(kw[0]);
  }

  lemma CharsetHit(t: string, kw: string)
    requires t == " DEFAULT CHARSET=utf8" && kw == "DEFAULT CHARSET"
    ensures TableOptionAt(t, 1, kw) == Some(Hit(20, []))
  {
    assert KeywordAt(t, 1, kw);
    assert t[16] == '=' && !IsSpace(t[16]) && !IsSpace(t[17]);
    assert forall j :: 17 <= j < 21 ==> IsWord(t[j]);
    TableOptionIs(t, 1, kw, 21);
  }

  /**
   Rule 5 uses the word before the type as the type of the constraint and the
   type as the column name.
   */
  lemma UnsignedChecksTypeName(s: string)
    requires s == "age INTEGER UNSIGNED"
    ensures Unsigned(s) == "age INTEGER CHECK (INTEGER >= 0)"
  {
    var h := Hit(20, "age INTEGER CHECK (INTEGER >= 0)");
    UnsignedSample(s);
    UnsignedMatchIs(s, UnsignedColumn);
    UnsignedWhole(s, h);
  }

  lemma UnsignedMatchIs(s: string, r: Rule)
    requires |s| > 0 && r == UnsignedColumn
    ensures Matches(r, s)[0] == UnsignedAt(s, 0)
  {
    MatchesAt(r, s, 0);
  }

  /** A rule 5 match that covers the whole text is the whole result. */
  lemma UnsignedWhole(s: string, h: Hit)
    requires |s| > 0 && Matches(UnsignedColumn, s)[0] == Some(h) && h.len == |s|
    ensures Unsigned(s) == h.out
  {
    var m := Matches(UnsignedColumn, s);
    FindWhole(s, m, h);
    var f := FindAll(UnsignedColumn, s);
    assert f == [(0, h)];
    assert s[0..|s|] == s;
    ReplaceWhole(s, h.out);
    assert Unsigned(s) == ReplaceEach(ReplaceAll(s, s, h.out), s, f[1..]);
  }

  /** A match that covers the whole text is the only one `re.finditer` reports. */
  lemma FindWhole(s: string, m: seq<Option<Hit>>, h: Hit)
    requires Fits(s, m) && |s| > 0 && m[0] == Some(h) && h.len == |s|
    ensures FindFrom(s, m, 0) == [(0, h)]
  {
    assert FindFrom(s, m, |s|) == [];
  }

  /** Replacing a whole text replaces it by the new text. */
  lemma ReplaceWhole(s: string, rep: string)
    requires |s| > 0
    ensures ReplaceAll(s, s, rep) == rep
  {
    var m := LiteralTable(s, s, rep);
    assert OccursAt(s, 0, s);
    assert m[0] == Some(Hit(|s|, rep));
    assert SubFrom(s, m, |s|) == [];
    assert SubFrom(s, m, 0) == rep + SubFrom(s, m, |s|);
  }

  lemma UnsignedSample(s: string)
    requires s == "age INTEGER UNSIGNED"
    ensures UnsignedAt(s, 0) == Some(Hit(20, "age INTEGER CHECK (INTEGER >= 0)"))
  {
    UnsignedRunsSample(s);
    UnsignedSplitSample(s);
    UnsignedGroupsSample(s);
  }

  /**
   Group 1's whitespace is not cut short: on `age  UNSIGNED x UNSIGNED` the
   name cannot start after the first of the two spaces and end at once,
   since from after the second space a name reaches the final `UNSIGNED`.
   */
  lemma ShortSplitRejected(s: string)
    requires s == "age  UNSIGNED x UNSIGNED"
    ensures !UnsignedShape(s, 0, 3, 4, 4, 13)
  {
    RunEndIs(s, 3, 5, Space);
    RunEndIs(s, 15, 16, Space);
    assert KeywordAt(s, 16, "UNSIGNED");
    assert Reaches(s, 5, 15);
  }

  lemma UnsignedRunsSample(s: string)
    requires s == "age INTEGER UNSIGNED"
    ensures RunEnd(s, 0, Word) == 3 && RunEnd(s, 3, Space) == 4 && RunEnd(s, 11, Space) == 12
  {
    RunEndIs(s, 0, 3, Word);
    RunEndIs(s, 3, 4, Space);
    RunEndIs(s, 11, 12, Space);
  }

  lemma UnsignedSplitSample(s: string)
    requires s == "age INTEGER UNSIGNED"
    ensures UnsignedSplit(s, 3, 4) == Some((4, 11))
  {
    RunEndIs(s, 11, 12, Space);
    assert KeywordAt(s, 12, "UNSIGNED");
    assert TailAt(s, 11);
    LazyNameIs(s, 4, 11);
  }

  lemma UnsignedGroupsSample(s: string)
    requires s == "age INTEGER UNSIGNED"
    ensures CheckConstraint(Strip(s[0..4]), Strip(s[4..11])) == "age INTEGER CHECK (INTEGER >= 0)"
  {
    UnsignedWordsSample(s);
    StripTypeGroup(s, 0, 3, 4);
    StripUnspaced(s[4..11]);
    CheckSample(s[0..3], s[4..11]);
  }

  lemma UnsignedWordsSample(s: string)
    requires s == "age INTEGER UNSIGNED"
    ensures s[0..3] == "age" && s[4..11] == "INTEGER"
  {
  }

  lemma CheckSample(columnType: string, columnName: string)
    requires columnType == "age" && columnName == "INTEGER"
    ensures CheckConstraint(columnType, columnName) == "age INTEGER CHECK (INTEGER >= 0)"
  {
  }

  // ---------------------------------------------------------------------------
  // Rule 14 is not idempotent

  /**
   Rule 14 consumes the whitespace on both sides of `REGEXP`, so of two
   operators separated by one space only the first is rewritten; a second
   application rewrites the other.
   */
  lemma RegexpNotIdempotent(s: string)
    requires s == " REGEXP REGEXP "
    ensures Sub(Regexp, s) == " ~ REGEXP "
    ensures Sub(Regexp, Sub(Regexp, s)) == " ~ ~ "
  {
    RegexpFirstPass(s, Regexp);
    RegexpSecondPass(" ~ REGEXP ", Regexp);
  }

  lemma RegexpFirstPass(s: string, r: Rule)
    requires s == " REGEXP REGEXP " && r == Regexp
    ensures Sub(r, s) == " ~ REGEXP "
  {
    MatchesAt(r, s, 0);
    MatchIs(r, s, 0);
    assert KeywordAt(s, 1, "REGEXP");
    forall k | 8 <= k < |s| ensures Matches(r, s)[k].None? {
      MatchesAt(r, s, k);
      MatchIs(r, s, k);
      assert !IsSpace(s[k]) || k + 7 >= |s|;
    }
    SubOnce(r, s, 0, Hit(8, " ~ "));
    assert s[..0] == [] && s[8..] == "REGEXP ";
  }

  lemma RegexpSecondPass(t: string, r: Rule)
    requires t == " ~ REGEXP " && r == Regexp
    ensures Sub(r, t) == " ~ ~ "
  {
    MatchesAt(r, t, 2);
    MatchIs(r, t, 2);
    assert KeywordAt(t, 3, "REGEXP");
    MatchesAt(r, t, 0);
    MatchIs(r, t, 0);
    assert !KeywordAt(t, 1, "REGEXP") by {
      assert Lower(t[1 + 0]) != Lower("REGEXP"[0]);
    }
    MatchesAt(r, t, 1);
    MatchIs(r, t, 1);
    SubOnce(r, t, 2, Hit(8, " ~ "));
    assert t[..2] == " ~" && t[10..] == [];
  }

  // ---------------------------------------------------------------------------
  // Rule 5 replaces every copy of a matched text

  /**
   Rule 5 rewrites each match with `str.replace`, which replaces every copy
   of the matched text, not only the match. Here the first match,
   `a b UNSIGNED`, also occurs inside the second line; after it is replaced
   in both places, the second match, `q a b UNSIGNED`, is no longer in the
   text, so its own constraint is never written.
   */
  lemma UnsignedReplacesCopies(s: string)
    requires s == "a b UNSIGNED\nq a b UNSIGNED"
    ensures Unsigned(s) == "a b CHECK (b >= 0)\nq a b CHECK (b >= 0)"
  {
    TwoLineTextIs(s);
    UnsignedTwoLines(s);
  }

  /** The two-line sample: the same line twice, the second time after `q `. */
  predicate TwoLineText(s: string) {
    |s| == 27 && s[..12] == "a b UNSIGNED" && s[12..15] == "\nq " && s[15..] == "a b UNSIGNED"
  }

  lemma TwoLineTextIs(s: string)
    requires s == "a b UNSIGNED\nq a b UNSIGNED"
    ensures TwoLineText(s)
  {
    assert s == "a b UNSIGNED" + "\nq " + "a b UNSIGNED";
  }

  /** The characters of a copy of the line `a b UNSIGNED` at `i`. */
  lemma LineChars(s: string, i: nat)
    requires i + 12 <= |s| && s[i..i + 12] == "a b UNSIGNED"
    ensures s[i] == 'a' && s[i + 1] == ' ' && s[i + 2] == 'b' && s[i + 3] == ' ' && KeywordAt(s, i + 4, "UNSIGNED")
    ensures s[i..i + 2] == "a " && s[i + 2..i + 3] == "b" && s[i + 4] == 'U'
  {
    var a := s[i..i + 12];
    assert a[0] == 'a' && a[1] == ' ' && a[2] == 'b' && a[3] == ' ' && a[4..] == "UNSIGNED";
    assert s[i..i + 2] == a[..2];
    assert s[i + 2..i + 3] == a[2..3];
    forall j | 0 <= j < 8 ensures Lower(s[i + 4 + j]) == Lower("UNSIGNED"[j]) {
      assert s[i + 4 + j] == a[4..][j];
    }
  }

  lemma FirstLineChars(s: string)
    requires TwoLineText(s)
    ensures s[0] == 'a' && s[1] == ' ' && s[2] == 'b' && s[3] == ' ' && KeywordAt(s, 4, "UNSIGNED")
    ensures s[0..2] == "a " && s[2..3] == "b"
  {
    assert s[0..12] == s[..12];
    LineChars(s, 0);
  }

  lemma SecondLineChars(s: string)
    requires TwoLineText(s)
    ensures s[12] == '\n' && s[13] == 'q' && s[14] == ' ' && s[15] == 'a' && s[16] == ' ' && s[17] == 'b'
    ensures s[18] == ' ' && KeywordAt(s, 19, "UNSIGNED") && s[19] == 'U'
    ensures s[13..15] == "q " && s[15..18] == "a b"
  {
    assert s[15..27] == s[15..];
    LineChars(s, 15);
    assert s[12..15][0] == s[12] && s[12..15][1] == s[13] && s[12..15][2] == s[14];
    assert s[13..15] == s[12..15][1..];
    assert s[15..18] == s[15..17] + s[17..18];
  }

  lemma UnsignedTwoLines(s: string)
    requires TwoLineText(s)
    ensures Unsigned(s) == "a b CHECK (b >= 0)\nq a b CHECK (b >= 0)"
  {
    var h1 := Hit(12, "a b CHECK (b >= 0)");
    var h2 := Hit(14, "q a b CHECK (a b >= 0)");
    var t1 := "a b CHECK (b >= 0)\nq a b CHECK (b >= 0)";
    TwoLineSlices(s);
    TwoMatchesFound(s, h1, h2);
    ReplaceEachTwo(s, s, FindAll(UnsignedColumn, s));
    FirstReplaced(s, s[0..12], h1.out);
    SecondAbsent(t1, s[13..27]);
    ReplaceAbsent(t1, s[13..27], h2.out);
  }

  lemma TwoLineSlices(s: string)
    requires TwoLineText(s)
    ensures s[0..12] == "a b UNSIGNED" && s[13..27] == "q a b UNSIGNED"
  {
    assert s[0..12] == s[..12];
    assert s[13..27] == s[12..15][1..] + s[15..];
  }

  /** Rule 5's loop over two matches: two `str.replace` calls, one after the other. */
  lemma ReplaceEachTwo(t: string, s: string, f: seq<(nat, Hit)>)
    requires Spans(s, f, 0) && |f| == 2
    ensures 0 < f[0].1.len && f[0].0 + f[0].1.len <= f[1].0 && 0 < f[1].1.len && f[1].0 + f[1].1.len <= |s|
    ensures ReplaceEach(t, s, f)
            == ReplaceAll(ReplaceAll(t, s[f[0].0..f[0].0 + f[0].1.len], f[0].1.out), s[f[1].0..f[1].0 + f[1].1.len], f[1].1.out)
  {
    var n := f[0].0 + f[0].1.len;
    var g := f[1..];
    assert Spans(s, g, n);
    assert g[0] == f[1] && g[1..] == [];
    var t1 := ReplaceAll(t, s[f[0].0..n], f[0].1.out);
    assert ReplaceEach(t, s, f) == ReplaceEach(t1, s, g);
    assert ReplaceEach(t1, s, g) == ReplaceEach(ReplaceAll(t1, s[g[0].0..g[0].0 + g[0].1.len], g[0].1.out), s, g[1..]);
  }

  /** `re.finditer` reports the two lines as two matches. */
  lemma TwoMatchesFound(s: string, h1: Hit, h2: Hit)
    requires TwoLineText(s)
    requires h1 == Hit(12, "a b CHECK (b >= 0)") && h2 == Hit(14, "q a b CHECK (a b >= 0)")
    ensures FindAll(UnsignedColumn, s) == [(0, h1), (13, h2)]
  {
    FirstLineMatch(s);
    SecondLineMatch(s);
    SecondLineChars(s);
    NoMatchAtNewline(s, 12);
    TableOfTwo(s, h1, h2);
  }

  lemma NoMatchAtNewline(s: string, i: nat)
    requires i < |s| && s[i] == '\n'
    ensures UnsignedAt(s, i).None?
  {
  }

  lemma TableOfTwo(s: string, h1: Hit, h2: Hit)
    requires |s| == 27 && UnsignedAt(s, 0) == Some(h1) && UnsignedAt(s, 12).None? && UnsignedAt(s, 13) == Some(h2)
    requires h1.len == 12 && h2.len == 14
    ensures FindAll(UnsignedColumn, s) == [(0, h1), (13, h2)]
  {
    var r := UnsignedColumn;
    MatchesAt(r, s, 0);
    MatchesAt(r, s, 12);
    MatchesAt(r, s, 13);
    MatchIs(r, s, 0);
    MatchIs(r, s, 12);
    MatchIs(r, s, 13);
    FindTwo(s, Matches(r, s), h1, h2);
  }

  /** A table with a match at 0 to 12 and one at 13 to the end is reported as those two. */
  lemma FindTwo(s: string, m: seq<Option<Hit>>, h1: Hit, h2: Hit)
    requires Fits(s, m) && |s| == 27 && m[0] == Some(h1) && m[12].None? && m[13] == Some(h2)
    requires h1.len == 12 && h2.len == 14
    ensures FindFrom(s, m, 0) == [(0, h1), (13, h2)]
  {
    FindFromHit(s, m, 0);
    FindFromHit(s, m, 13);
    assert FindFrom(s, m, 12) == FindFrom(s, m, 13);
    assert FindFrom(s, m, 27) == [];
  }

  lemma FirstLineMatch(s: string)
    requires TwoLineText(s)
    ensures UnsignedAt(s, 0) == Some(Hit(12, "a b CHECK (b >= 0)"))
  {
    FirstLineChars(s);
    FirstLineRuns(s);
    FirstLineSplit(s);
    GroupsSample(s[0..2], s[2..3], 1);
    assert s[0..2][..1] == "a";
    CheckText("a", "b", "a b CHECK (b >= 0)");
  }

  lemma FirstLineRuns(s: string)
    requires |s| == 27 && s[0] == 'a' && s[1] == ' ' && s[2] == 'b' && s[3] == ' ' && s[4] == 'U'
    ensures RunEnd(s, 0, Word) == 1 && RunEnd(s, 1, Space) == 2 && RunEnd(s, 3, Space) == 4
  {
    RunEndIs(s, 0, 1, Word);
    RunEndIs(s, 1, 2, Space);
    RunEndIs(s, 3, 4, Space);
  }

  lemma FirstLineSplit(s: string)
    requires |s| == 27 && s[2] == 'b' && s[3] == ' ' && s[4] == 'U' && KeywordAt(s, 4, "UNSIGNED")
    ensures UnsignedSplit(s, 1, 2) == Some((2, 3))
  {
    RunEndIs(s, 3, 4, Space);
    assert TailAt(s, 3);
    LazyNameIs(s, 2, 3);
  }

  /** A type group of one word and one space, and a name that needs no stripping. */
  lemma GroupsSample(x: string, y: string, n: nat)
    requires |x| == n + 1 && 0 < n && AllIn(x[..n], Word) && x[n] == ' '
    requires 0 < |y| && !IsSpace(y[0]) && !IsSpace(y[|y| - 1])
    ensures CheckConstraint(Strip(x), Strip(y)) == x[..n] + " " + y + " CHECK (" + y + " >= 0)"
  {
    assert AllIn(x[n..], Space) by {
      assert x[n..] == [' '];
    }
    StripWordSpaces(x, n);
    StripUnspaced(y);
  }

  lemma SecondLineMatch(s: string)
    requires TwoLineText(s)
    ensures UnsignedAt(s, 13) == Some(Hit(14, "q a b CHECK (a b >= 0)"))
  {
    SecondLineChars(s);
    SecondLineRuns(s);
    SecondLineSplit(s);
    GroupsSample(s[13..15], s[15..18], 1);
    assert s[13..15][..1] == "q";
    CheckText("q", "a b", "q a b CHECK (a b >= 0)");
  }

  lemma SecondLineRuns(s: string)
    requires |s| == 27 && s[13] == 'q' && s[14] == ' ' && s[15] == 'a' && s[18] == ' ' && s[19] == 'U'
    ensures RunEnd(s, 13, Word) == 14 && RunEnd(s, 14, Space) == 15 && RunEnd(s, 18, Space) == 19
  {
    RunEndIs(s, 13, 14, Word);
    RunEndIs(s, 14, 15, Space);
    RunEndIs(s, 18, 19, Space);
  }

  /** The lazy name stops before the second `UNSIGNED`, passing the space before `b`. */
  lemma SecondLineSplit(s: string)
    requires |s| == 27 && s[15] == 'a' && s[16] == ' ' && s[17] == 'b' && s[18] == ' ' && s[19] == 'U'
    requires KeywordAt(s, 19, "UNSIGNED")
    ensures UnsignedSplit(s, 14, 15) == Some((15, 18))
  {
    RunEndIs(s, 16, 17, Space);
    RunEndIs(s, 18, 19, Space);
    assert TailAt(s, 18);
    assert !KeywordAt(s, 17, "UNSIGNED") by {
      assert Lower(s[17 + 0]) != Lower("UNSIGNED"[0]);
    }
    LazyNameIs(s, 15, 18);
  }

  /** The first match's text occurs twice, and `str.replace` rewrites both. */
  lemma FirstReplaced(s: string, pat: string, rep: string)
    requires TwoLineText(s) && pat == "a b UNSIGNED" && rep == "a b CHECK (b >= 0)"
    ensures ReplaceAll(s, pat, rep) == "a b CHECK (b >= 0)\nq a b CHECK (b >= 0)"
  {
    SecondLineChars(s);
    assert OccursAt(s, 0, pat) by {
      assert s[0..12] == s[..12];
    }
    assert OccursAt(s, 15, pat) by {
      assert s[15..27] == s[15..];
    }
    forall k | 12 <= k < 15 ensures !OccursAt(s, k, pat) {
      assert s[k..k + |pat|][0] == s[k];
    }
    ReplaceTwo(s, pat, rep, 0, 15);
    assert s[..0] == [] && s[27..] == [];
    JoinSample(rep);
  }

  lemma CheckText(columnType: string, columnName: string, t: string)
    requires (columnType == "a" && columnName == "b" && t == "a b CHECK (b >= 0)")
             || (columnType == "q" && columnName == "a b" && t == "q a b CHECK (a b >= 0)")
    ensures columnType + " " + columnName + " CHECK (" + columnName + " >= 0)" == t
  {
  }

  lemma JoinSample(rep: string)
    requires rep == "a b CHECK (b >= 0)"
    ensures [] + (rep + ("\nq " + (rep + []))) == "a b CHECK (b >= 0)\nq a b CHECK (b >= 0)"
  {
  }

  /**
   `str.replace` with two occurrences that nothing else overlaps between them
   replaces both.
   */
  lemma ReplaceTwo(t: string, pat: string, rep: string, i: nat, j: nat)
    requires |pat| > 0 && OccursAt(t, i, pat) && OccursAt(t, j, pat) && i + |pat| <= j
    requires forall k :: 0 <= k < i ==> !OccursAt(t, k, pat)
    requires forall k :: i + |pat| <= k < j ==> !OccursAt(t, k, pat)
    requires forall k :: j + |pat| <= k < |t| ==> !OccursAt(t, k, pat)
    ensures ReplaceAll(t, pat, rep) == t[..i] + (rep + (t[i + |pat|..j] + (rep + t[j + |pat|..])))
  {
    var m := LiteralTable(t, pat, rep);
    SubTwo(t, m, i, j, Hit(|pat|, rep));
  }

  /** The scan of `re.sub` over a table with exactly two matches. */
  lemma SubTwo(s: string, m: seq<Option<Hit>>, i: nat, j: nat, h: Hit)
    requires Fits(s, m) && i + h.len <= j < |s| && m[i] == Some(h) && m[j] == Some(h)
    requires forall k :: 0 <= k < i ==> m[k].None?
    requires forall k :: i + h.len <= k < j ==> m[k].None?
    requires forall k :: j + h.len <= k < |s| ==> m[k].None?
    ensures SubFrom(s, m, 0) == s[..i] + (h.out + (s[i + h.len..j] + (h.out + s[j + h.len..])))
  {
    SubLast(s, m, j, h);
    SubNext(s, m, i, j, h);
    SubPrefixCopied(s, m, 0, i);
    assert s[0..i] == s[..i];
  }

  /** The scan from one match to the next: its replacement, then the text between them copied. */
  lemma SubNext(s: string, m: seq<Option<Hit>>, i: nat, j: nat, h: Hit)
    requires Fits(s, m) && i + h.len <= j <= |s| && i < |s| && m[i] == Some(h)
    requires forall k :: i + h.len <= k < j ==> m[k].None?
    ensures SubFrom(s, m, i) == h.out + (s[i + h.len..j] + SubFrom(s, m, j))
  {
    SubFromHit(s, m, i);
    assert SubFrom(s, m, i) == h.out + SubFrom(s, m, i + h.len);
    SubPrefixCopied(s, m, i + h.len, j);
  }

  /** The scan from the last match on: its replacement, then the rest copied. */
  lemma SubLast(s: string, m: seq<Option<Hit>>, j: nat, h: Hit)
    requires Fits(s, m) && j < |s| && m[j] == Some(h)
    requires forall k :: j + h.len <= k < |s| ==> m[k].None?
    ensures SubFrom(s, m, j) == h.out + s[j + h.len..]
  {
    var e := j + h.len;
    SubPrefixCopied(s, m, e, |s|);
    assert SubFrom(s, m, |s|) == [];
    assert s[e..|s|] == s[e..];
    SubFromHit(s, m, j);
  }

  /** No copy of the second match's text is left after the first replacement. */
  lemma SecondAbsent(t: string, pat: string)
    requires t == "a b CHECK (b >= 0)\nq a b CHECK (b >= 0)" && pat == "q a b UNSIGNED"
    ensures forall k: nat :: !OccursAt(t, k, pat)
  {
    forall k: nat | k + |pat| <= |t| ensures !OccursAt(t, k, pat) {
      assert t[k..k + |pat|][6] == t[k + 6];
      assert t[k + 6] != 'U';
    }
  }
}
