/**
 Python's `re.sub` and `re.finditer` for one rule, on patterns that never
 match the empty string.

 The search starts at position 0. Where the rule matches, the replacement is
 emitted and the search resumes after the match; where it does not, one
 character is copied and the search moves on by one. That is the leftmost,
 non-overlapping scan both functions perform.
 */
module Substitute {
  import opened Chars
  import opened Patterns
  import opened PatternFacts

  /** The matcher of rule `r` at position `i`. */
  function Match(r: Rule, s: string, i: nat): (h: Option<Hit>)
    requires i < |s|
    ensures h.Some? ==> 0 < h.value.len <= |s| - i
  {
    match r
    case Backticks => BacktickAt(s, i)
    case AutoIncrement => AutoIncrementAt(s, i)
    case IntWord => IntWordAt(s, i)
    case IntPrecision => IntPrecisionAt(s, i)
    case SizedText => SizedTextAt(s, i)
    case UnsignedColumn => UnsignedAt(s, i)
    case TinyintOne => TinyintOneAt(s, i)
    case Datetime => DatetimeAt(s, i)
    case Ifnull => IfnullAt(s, i)
    case Limit => LimitAt(s, i)
    case Now => NowAt(s, i)
    case SubstringIndex => SubstringIndexAt(s, i)
    case GroupConcat => GroupConcatAt(s, i)
    case TrueWord => LowerWordAt(s, i, "TRUE")
    case FalseWord => LowerWordAt(s, i, "FALSE")
    case Regexp => RegexpAt(s, i)
    case Engine => TableOptionAt(s, i, "ENGINE")
    case DefaultCharset => TableOptionAt(s, i, "DEFAULT CHARSET")
    case CommentSpace => CommentAt(s, i)
  }

  /** A table of the matches at every position of `s`; each match lies inside `s`. */
  predicate Fits(s: string, m: seq<Option<Hit>>) {
    |m| == |s| && forall k :: 0 <= k < |s| && m[k].Some? ==> 0 < m[k].value.len <= |s| - k
  }

  /** The match of rule `r` at every position of `s`. */
  function Matches(r: Rule, s: string): (m: seq<Option<Hit>>)
    ensures Fits(s, m)
  {
    seq(|s|, k requires 0 <= k < |s| => Match(r, s, k))
  }

  /** An entry of the table is the rule's match at that position. */
  lemma MatchesAt(r: Rule, s: string, k: nat)
    requires k < |s|
    ensures Matches(r, s)[k] == Match(r, s, k)
  {
  }

  /** The scan of `re.sub` from position `i` on, given the match table `m`. */
  function SubFrom(s: string, m: seq<Option<Hit>>, i: nat): string
    requires Fits(s, m) && i <= |s|
    decreases |s| - i
  {
    if i == |s| then []
    else
      match m[i]
      case None => [s[i]] + SubFrom(s, m, i + 1)
      case Some(h) => h.out + SubFrom(s, m, i + h.len)
  }

  /** `re.sub(pattern, replacement, s)` for rule `r`. */
  function Sub(r: Rule, s: string): string {
    SubFrom(s, Matches(r, s), 0)
  }

  /**
   Matches `(start, hit)` in increasing order, each inside `s` from `i` on,
   not empty, and not overlapping the next.
   */
  predicate Spans(s: string, f: seq<(nat, Hit)>, i: nat)
    decreases |f|
  {
    f == [] ||
    (i <= f[0].0 && 0 < f[0].1.len && f[0].0 + f[0].1.len <= |s| && Spans(s, f[1..], f[0].0 + f[0].1.len))
  }

  /**
   The table's matches replace each matched character by one character,
   either the same or related to it by `ok`.
   */
  predicate CharForChar(s: string, m: seq<Option<Hit>>, ok: (char, char) -> bool)
    requires Fits(s, m)
  {
    forall k :: 0 <= k < |s| && m[k].Some? ==>
      |m[k].value.out| == m[k].value.len
      && forall j :: 0 <= j < m[k].value.len ==>
           m[k].value.out[j] == s[k + j] || ok(s[k + j], m[k].value.out[j])
  }

  /**
   `t` has the length of `s` from `i` on, and each of its characters is the
   character at the same place of `s`, either unchanged or related to it by `ok`.
   */
  predicate Pointwise(s: string, t: string, i: nat, ok: (char, char) -> bool) {
    i <= |s| && |t| == |s| - i && forall k :: i <= k < |s| ==> t[k - i] == s[k] || ok(s[k], t[k - i])
  }

  /**
   When every match replaces character for character, the scan keeps the
   length and relates every character of the result to the character at the
   same place of the text, either unchanged or by `ok`.
   */
  lemma {:induction false} PointwiseFrom(s: string, m: seq<Option<Hit>>, i: nat, ok: (char, char) -> bool)
    requires Fits(s, m) && i <= |s| && CharForChar(s, m, ok)
    ensures Pointwise(s, SubFrom(s, m, i), i, ok)
    decreases |s| - i
  {
    if i == |s| {
      assert SubFrom(s, m, i) == [];
    } else if m[i].None? {
      PointwiseFrom(s, m, i + 1, ok);
      PointwiseMiss(s, m, i, ok);
    } else {
      PointwiseFrom(s, m, i + m[i].value.len, ok);
      PointwiseHit(s, m, i, ok);
    }
  }

  lemma PointwiseMiss(s: string, m: seq<Option<Hit>>, i: nat, ok: (char, char) -> bool)
    requires Fits(s, m) && i < |s| && m[i].None?
    requires Pointwise(s, SubFrom(s, m, i + 1), i + 1, ok)
    ensures Pointwise(s, SubFrom(s, m, i), i, ok)
  {
    var t := SubFrom(s, m, i);
    var rest := SubFrom(s, m, i + 1);
    assert t == [s[i]] + rest;
    forall k | i <= k < |s| ensures t[k - i] == s[k] || ok(s[k], t[k - i]) {
      if k > i {
        assert t[k - i] == rest[k - (i + 1)];
      }
    }
  }

  lemma PointwiseHit(s: string, m: seq<Option<Hit>>, i: nat, ok: (char, char) -> bool)
    requires Fits(s, m) && i < |s| && CharForChar(s, m, ok) && m[i].Some?
    requires Pointwise(s, SubFrom(s, m, i + m[i].value.len), i + m[i].value.len, ok)
    ensures Pointwise(s, SubFrom(s, m, i), i, ok)
  {
    var h := m[i].value;
    var t := SubFrom(s, m, i);
    var rest := SubFrom(s, m, i + h.len);
    assert t == h.out + rest;
    forall k | i <= k < |s| ensures t[k - i] == s[k] || ok(s[k], t[k - i]) {
      if k < i + h.len {
        assert t[k - i] == h.out[k - i];
        assert h.out[k - i] == s[i + (k - i)] || ok(s[i + (k - i)], h.out[k - i]);
      } else {
        assert t[k - i] == rest[k - (i + h.len)];
      }
    }
  }

  /** Spans that start at or after `i` also start at or after any `j <= i`. */
  lemma SpansWeaken(s: string, f: seq<(nat, Hit)>, i: nat, j: nat)
    requires Spans(s, f, i) && j <= i
    ensures Spans(s, f, j)
  {
  }

  /** The matches `re.finditer` reports from position `i` on, given the match table `m`. */
  function FindFrom(s: string, m: seq<Option<Hit>>, i: nat): (f: seq<(nat, Hit)>)
    requires Fits(s, m) && i <= |s|
    ensures Spans(s, f, i)
    ensures forall j :: 0 <= j < |f| ==> i <= f[j].0 < |s| && m[f[j].0] == Some(f[j].1)
    decreases |s| - i
  {
    if i == |s| then []
    else
      match m[i]
      case None => FindFrom(s, m, i + 1)
      case Some(h) => [(i, h)] + FindFrom(s, m, i + h.len)
  }

  /** `re.finditer(pattern, s)` for rule `r`. */
  function FindAll(r: Rule, s: string): seq<(nat, Hit)> {
    FindFrom(s, Matches(r, s), 0)
  }

  /** Position `k` lies inside one of the listed spans. */
  ghost predicate Covered(f: seq<(nat, Hit)>, k: nat) {
    exists j :: 0 <= j < |f| && f[j].0 <= k < f[j].0 + f[j].1.len
  }

  /**
   `re.finditer` passes over no match: every position from `i` on where the
   table has one lies inside a reported span, the match itself or an earlier
   one that overlaps it.
   */
  lemma {:induction false} FindFromCovers(s: string, m: seq<Option<Hit>>, i: nat)
    requires Fits(s, m) && i <= |s|
    ensures CoversFrom(s, m, i)
    decreases |s| - i
  {
    if i == |s| {
      assert FindFrom(s, m, i) == [];
    } else if m[i].None? {
      FindFromCovers(s, m, i + 1);
      CoversMiss(s, m, i);
    } else {
      var n := i + m[i].value.len;
      FindFromCovers(s, m, n);
      CoversHit(s, m, i, n);
    }
  }

  /** Every match from `i` on lies inside a span `re.finditer` reports from `i`. */
  ghost predicate CoversFrom(s: string, m: seq<Option<Hit>>, i: nat)
    requires Fits(s, m) && i <= |s|
  {
    forall k {:trigger Covered(FindFrom(s, m, i), k)} :: i <= k < |s| && m[k].Some? ==> Covered(FindFrom(s, m, i), k)
  }

  /** The step of `FindFromCovers` where no match starts. */
  lemma CoversMiss(s: string, m: seq<Option<Hit>>, i: nat)
    requires Fits(s, m) && i < |s| && m[i].None?
    requires CoversFrom(s, m, i + 1)
    ensures CoversFrom(s, m, i)
  {
    assert FindFrom(s, m, i) == FindFrom(s, m, i + 1);
  }

  /** The step of `FindFromCovers` at a match: the match covers its own span. */
  lemma CoversHit(s: string, m: seq<Option<Hit>>, i: nat, n: nat)
    requires Fits(s, m) && i < |s| && m[i].Some? && n == i + m[i].value.len
    requires CoversFrom(s, m, n)
    ensures CoversFrom(s, m, i)
  {
    var f := FindFrom(s, m, i);
    FindFromHit(s, m, i);
    forall k | i <= k < |s| && m[k].Some? ensures Covered(f, k) {
      if k < n {
        assert f[0].0 <= k < f[0].0 + f[0].1.len;
      } else {
        CoveredCons(f, k);
      }
    }
  }

  /** A position inside a span of the tail of a list is inside a span of the list. */
  lemma CoveredCons(f: seq<(nat, Hit)>, k: nat)
    requires f != [] && Covered(f[1..], k)
    ensures Covered(f, k)
  {
    var j :| 0 <= j < |f[1..]| && f[1..][j].0 <= k < f[1..][j].0 + f[1..][j].1.len;
    assert f[j + 1] == f[1..][j];
  }

  /** The text from `i` on with each listed span replaced by its hit's text. */
  function Splice(s: string, f: seq<(nat, Hit)>, i: nat): string
    requires i <= |s| && Spans(s, f, i)
    decreases |f|
  {
    if f == [] then s[i..]
    else s[i..f[0].0] + f[0].1.out + Splice(s, f[1..], f[0].0 + f[0].1.len)
  }

  /**
   `re.sub` is the text with the matches `re.finditer` reports replaced: the
   two scans agree on which matches they take.
   */
  lemma {:induction false} SubIsSplice(s: string, m: seq<Option<Hit>>, i: nat)
    requires Fits(s, m) && i <= |s|
    ensures SubFrom(s, m, i) == Splice(s, FindFrom(s, m, i), i)
    decreases |s| - i
  {
    if i == |s| {
      assert SubFrom(s, m, i) == [];
      assert FindFrom(s, m, i) == [];
    } else if m[i].None? {
      SubIsSplice(s, m, i + 1);
      SpliceMiss(s, m, i);
    } else {
      SubIsSplice(s, m, i + m[i].value.len);
      SpliceHit(s, m, i);
    }
  }

  lemma SpliceMiss(s: string, m: seq<Option<Hit>>, i: nat)
    requires Fits(s, m) && i < |s| && m[i].None?
    requires SubFrom(s, m, i + 1) == Splice(s, FindFrom(s, m, i + 1), i + 1)
    ensures SubFrom(s, m, i) == Splice(s, FindFrom(s, m, i), i)
  {
    var f := FindFrom(s, m, i + 1);
    assert FindFrom(s, m, i) == f;
    assert SubFrom(s, m, i) == [s[i]] + SubFrom(s, m, i + 1);
    SpliceCons(s, f, i);
  }

  /** Starting a splice one character earlier puts that character in front. */
  lemma SpliceCons(s: string, f: seq<(nat, Hit)>, i: nat)
    requires i < |s| && Spans(s, f, i + 1)
    ensures Spans(s, f, i)
    ensures Splice(s, f, i) == [s[i]] + Splice(s, f, i + 1)
  {
    SpansWeaken(s, f, i + 1, i);
    if f == [] {
      assert s[i..] == [s[i]] + s[i + 1..];
    } else {
      var p := f[0].0;
      var rest := SpliceRest(s, f);
      SpliceFirst(s, f, i);
      SpliceFirst(s, f, i + 1);
      ConsSlice(s, i, p, rest);
    }
  }

  /** What a non-empty splice puts after the text before its first span. */
  function SpliceRest(s: string, f: seq<(nat, Hit)>): string
    requires f != [] && Spans(s, f, 0)
  {
    f[0].1.out + Splice(s, f[1..], f[0].0 + f[0].1.len)
  }

  lemma SpliceFirst(s: string, f: seq<(nat, Hit)>, i: nat)
    requires i <= |s| && f != [] && Spans(s, f, i)
    ensures Spans(s, f, 0)
    ensures Splice(s, f, i) == s[i..f[0].0] + SpliceRest(s, f)
  {
    SpansWeaken(s, f, i, 0);
  }

  lemma ConsSlice(s: string, i: nat, p: nat, rest: string)
    requires i < p <= |s|
    ensures s[i..p] + rest == [s[i]] + (s[i + 1..p] + rest)
  {
    assert s[i..p] == [s[i]] + s[i + 1..p];
  }

  lemma SpliceHit(s: string, m: seq<Option<Hit>>, i: nat)
    requires Fits(s, m) && i < |s| && m[i].Some?
    requires SubFrom(s, m, i + m[i].value.len) == Splice(s, FindFrom(s, m, i + m[i].value.len), i + m[i].value.len)
    ensures SubFrom(s, m, i) == Splice(s, FindFrom(s, m, i), i)
  {
    SubFromHit(s, m, i);
    FindFromHit(s, m, i);
    SpliceAtStart(s, FindFrom(s, m, i), i);
  }

  /** A splice whose first span starts right away begins with that span's text. */
  lemma SpliceAtStart(s: string, g: seq<(nat, Hit)>, i: nat)
    requires i <= |s| && Spans(s, g, i) && g != [] && g[0].0 == i
    ensures Splice(s, g, i) == g[0].1.out + Splice(s, g[1..], g[0].0 + g[0].1.len)
  {
    assert s[i..g[0].0] == [];
  }

  lemma FindFromHit(s: string, m: seq<Option<Hit>>, i: nat)
    requires Fits(s, m) && i < |s| && m[i].Some?
    ensures var f := FindFrom(s, m, i);
            f != [] && f[0] == (i, m[i].value) && f[1..] == FindFrom(s, m, i + m[i].value.len)
  {
    var f := FindFrom(s, m, i);
    assert f == [(i, m[i].value)] + FindFrom(s, m, i + m[i].value.len);
  }

  /** Where rule `r`'s anchor sits inside a match of length `len`. */
  function AnchorOffset(r: Rule, len: nat): nat {
    match r
    case SizedText => if len >= 4 then len - 4 else 0
    case UnsignedColumn => if len >= 8 then len - 8 else 0
    case Regexp => 1
    case _ => 0
  }

  /** The hit `h` of rule `r` at `i`, if any, contains the rule's anchor at `AnchorOffset`. */
  predicate AnchoredHit(r: Rule, s: string, i: nat, h: Option<Hit>) {
    h.Some? ==>
      var k := i + AnchorOffset(r, h.value.len);
      k + |Anchor(r)| <= i + h.value.len && KeywordAt(s, k, Anchor(r))
  }

  /**
   The match of rule `r` at `i`, if any, contains the rule's anchor,
   compared case-insensitively.
   */
  predicate Anchored(r: Rule, s: string, i: nat)
    requires i < |s|
  {
    AnchoredHit(r, s, i, Match(r, s, i))
  }

  /** Every match contains its rule's anchor. */
  lemma MatchContainsAnchor(r: Rule, s: string, i: nat)
    requires i < |s|
    ensures Anchored(r, s, i)
  {
    MatchIs(r, s, i);
    match r
    case Backticks => BackticksAnchored(r, s, i);
    case AutoIncrement => AutoIncrementAnchored(r, s, i);
    case IntWord => IntWordAnchored(r, s, i);
    case IntPrecision => IntPrecisionAnchored(r, s, i);
    case SizedText => SizedTextAnchored(r, s, i);
    case UnsignedColumn => UnsignedColumnAnchored(r, s, i);
    case TinyintOne => TinyintOneAnchored(r, s, i);
    case Datetime => DatetimeAnchored(r, s, i);
    case Ifnull => IfnullAnchored(r, s, i);
    case Limit => LimitAnchored(r, s, i);
    case Now => NowAnchored(r, s, i);
    case SubstringIndex => SubstringIndexAnchored(r, s, i);
    case GroupConcat => GroupConcatAnchored(r, s, i);
    case TrueWord => TrueWordAnchored(r, s, i);
    case FalseWord => FalseWordAnchored(r, s, i);
    case Regexp => RegexpAnchored(r, s, i);
    case Engine => EngineAnchored(r, s, i);
    case DefaultCharset => DefaultCharsetAnchored(r, s, i);
    case CommentSpace => CommentSpaceAnchored(r, s, i);
  }

  /** Which matcher `Match` runs for each rule. */
  lemma MatchIs(r: Rule, s: string, i: nat)
    requires i < |s|
    ensures r.Backticks? ==> Match(r, s, i) == BacktickAt(s, i)
    ensures r.AutoIncrement? ==> Match(r, s, i) == AutoIncrementAt(s, i)
    ensures r.IntWord? ==> Match(r, s, i) == IntWordAt(s, i)
    ensures r.IntPrecision? ==> Match(r, s, i) == IntPrecisionAt(s, i)
    ensures r.SizedText? ==> Match(r, s, i) == SizedTextAt(s, i)
    ensures r.UnsignedColumn? ==> Match(r, s, i) == UnsignedAt(s, i)
    ensures r.TinyintOne? ==> Match(r, s, i) == TinyintOneAt(s, i)
    ensures r.Datetime? ==> Match(r, s, i) == DatetimeAt(s, i)
    ensures r.Ifnull? ==> Match(r, s, i) == IfnullAt(s, i)
    ensures r.Limit? ==> Match(r, s, i) == LimitAt(s, i)
    ensures r.Now? ==> Match(r, s, i) == NowAt(s, i)
    ensures r.SubstringIndex? ==> Match(r, s, i) == SubstringIndexAt(s, i)
    ensures r.GroupConcat? ==> Match(r, s, i) == GroupConcatAt(s, i)
    ensures r.TrueWord? ==> Match(r, s, i) == LowerWordAt(s, i, "TRUE")
    ensures r.FalseWord? ==> Match(r, s, i) == LowerWordAt(s, i, "FALSE")
    ensures r.Regexp? ==> Match(r, s, i) == RegexpAt(s, i)
    ensures r.Engine? ==> Match(r, s, i) == TableOptionAt(s, i, "ENGINE")
    ensures r.DefaultCharset? ==> Match(r, s, i) == TableOptionAt(s, i, "DEFAULT CHARSET")
    ensures r.CommentSpace? ==> Match(r, s, i) == CommentAt(s, i)
  {
  }

  lemma BackticksAnchored(r: Rule, s: string, i: nat)
    requires i < |s| && r.Backticks?
    ensures AnchoredHit(r, s, i, BacktickAt(s, i))
  {
  }

  lemma AutoIncrementAnchored(r: Rule, s: string, i: nat)
    requires i < |s| && r.AutoIncrement?
    ensures AnchoredHit(r, s, i, AutoIncrementAt(s, i))
  {
    if AutoIncrementAt(s, i).Some? {
      AutoIncrementAnchor(s, i);
    }
  }

  lemma IntWordAnchored(r: Rule, s: string, i: nat)
    requires i < |s| && r.IntWord?
    ensures AnchoredHit(r, s, i, IntWordAt(s, i))
  {
  }

  lemma IntPrecisionAnchored(r: Rule, s: string, i: nat)
    requires i < |s| && r.IntPrecision?
    ensures AnchoredHit(r, s, i, IntPrecisionAt(s, i))
  {
    if IntPrecisionAt(s, i).Some? {
      IntPrecisionAnchor(s, i);
    }
  }

  lemma SizedTextAnchored(r: Rule, s: string, i: nat)
    requires i < |s| && r.SizedText?
    ensures AnchoredHit(r, s, i, SizedTextAt(s, i))
  {
  }

  lemma UnsignedColumnAnchored(r: Rule, s: string, i: nat)
    requires i < |s| && r.UnsignedColumn?
    ensures AnchoredHit(r, s, i, UnsignedAt(s, i))
  {
    UnsignedEndsWithKeyword(s, i);
    AnchoredAtEnd(r, s, i, UnsignedAt(s, i));
  }

  /** A hit that ends with `UNSIGNED` holds rule 5's anchor. */
  lemma AnchoredAtEnd(r: Rule, s: string, i: nat, h: Option<Hit>)
    requires r.UnsignedColumn?
    requires EndsWithUnsigned(s, i, h)
    ensures AnchoredHit(r, s, i, h)
  {
  }

  lemma TinyintOneAnchored(r: Rule, s: string, i: nat)
    requires i < |s| && r.TinyintOne?
    ensures AnchoredHit(r, s, i, TinyintOneAt(s, i))
  {
  }

  lemma DatetimeAnchored(r: Rule, s: string, i: nat)
    requires i < |s| && r.Datetime?
    ensures AnchoredHit(r, s, i, DatetimeAt(s, i))
  {
  }

  lemma IfnullAnchored(r: Rule, s: string, i: nat)
    requires i < |s| && r.Ifnull?
    ensures AnchoredHit(r, s, i, IfnullAt(s, i))
  {
    if IfnullAt(s, i).Some? {
      IfnullGroups(s, i);
    }
  }

  lemma LimitAnchored(r: Rule, s: string, i: nat)
    requires i < |s| && r.Limit?
    ensures AnchoredHit(r, s, i, LimitAt(s, i))
  {
    if LimitAt(s, i).Some? {
      LimitGroups(s, i);
    }
  }

  lemma NowAnchored(r: Rule, s: string, i: nat)
    requires i < |s| && r.Now?
    ensures AnchoredHit(r, s, i, NowAt(s, i))
  {
  }

  lemma SubstringIndexAnchored(r: Rule, s: string, i: nat)
    requires i < |s| && r.SubstringIndex?
    ensures AnchoredHit(r, s, i, SubstringIndexAt(s, i))
  {
    if SubstringIndexAt(s, i).Some? {
      var g := SubstringIndexSplit(s, i).value;
      assert SubstringIndexAt(s, i).value.len == g.4 + 1 - i;
    }
  }

  lemma GroupConcatAnchored(r: Rule, s: string, i: nat)
    requires i < |s| && r.GroupConcat?
    ensures AnchoredHit(r, s, i, GroupConcatAt(s, i))
  {
  }

  lemma TrueWordAnchored(r: Rule, s: string, i: nat)
    requires i < |s| && r.TrueWord?
    ensures AnchoredHit(r, s, i, LowerWordAt(s, i, "TRUE"))
  {
  }

  lemma FalseWordAnchored(r: Rule, s: string, i: nat)
    requires i < |s| && r.FalseWord?
    ensures AnchoredHit(r, s, i, LowerWordAt(s, i, "FALSE"))
  {
  }

  lemma RegexpAnchored(r: Rule, s: string, i: nat)
    requires i < |s| && r.Regexp?
    ensures AnchoredHit(r, s, i, RegexpAt(s, i))
  {
  }

  lemma EngineAnchored(r: Rule, s: string, i: nat)
    requires i < |s| && r.Engine?
    ensures AnchoredHit(r, s, i, TableOptionAt(s, i, "ENGINE"))
  {
  }

  lemma DefaultCharsetAnchored(r: Rule, s: string, i: nat)
    requires i < |s| && r.DefaultCharset?
    ensures AnchoredHit(r, s, i, TableOptionAt(s, i, "DEFAULT CHARSET"))
  {
  }

  lemma CommentSpaceAnchored(r: Rule, s: string, i: nat)
    requires i < |s| && r.CommentSpace?
    ensures AnchoredHit(r, s, i, CommentAt(s, i))
  {
  }

  lemma AutoIncrementAnchor(s: string, i: nat)
    requires AutoIncrementAt(s, i).Some?
    ensures AutoIncrementAt(s, i).value.len >= 4 && KeywordAt(s, i, "AUTO")
  {
    if KeywordAt(s, i, "AUTO_INCREMENT") {
      KeywordPrefix(s, i, "AUTO_INCREMENT", 4);
      assert "AUTO_INCREMENT"[..4] == "AUTO";
    } else {
      KeywordPrefix(s, i, "AUTOINCREMENT", 4);
      assert "AUTOINCREMENT"[..4] == "AUTO";
    }
  }

  lemma IntPrecisionAnchor(s: string, i: nat)
    requires i < |s| && IntPrecisionAt(s, i).Some?
    ensures KeywordAt(s, i, "INT(")
  {
    forall j | 0 <= j < 4 ensures Lower(s[i + j]) == Lower("INT("[j]) {
      if j < 3 { KeywordChar(s, i, "INT", j); }
    }
  }

  /**
   A scan in which every match would put back exactly the text it matched
   changes nothing.
   */
  lemma {:induction false} SelfHitsIdentity(s: string, m: seq<Option<Hit>>, i: nat)
    requires Fits(s, m) && i <= |s|
    requires forall k :: i <= k < |s| && m[k].Some? ==> m[k].value.out == s[k..k + m[k].value.len]
    ensures SubFrom(s, m, i) == s[i..]
    decreases |s| - i
  {
    if i == |s| {
      assert SubFrom(s, m, i) == [];
    } else if m[i].None? {
      SelfHitsIdentity(s, m, i + 1);
      SelfMiss(s, m, i);
    } else {
      SelfHitsIdentity(s, m, i + m[i].value.len);
      SelfHit(s, m, i);
    }
  }

  lemma SelfMiss(s: string, m: seq<Option<Hit>>, i: nat)
    requires Fits(s, m) && i < |s| && m[i].None?
    requires SubFrom(s, m, i + 1) == s[i + 1..]
    ensures SubFrom(s, m, i) == s[i..]
  {
    assert SubFrom(s, m, i) == [s[i]] + SubFrom(s, m, i + 1);
    assert s[i..] == [s[i]] + s[i + 1..];
  }

  lemma SelfHit(s: string, m: seq<Option<Hit>>, i: nat)
    requires Fits(s, m) && i < |s| && m[i].Some?
    requires m[i].value.out == s[i..i + m[i].value.len]
    requires SubFrom(s, m, i + m[i].value.len) == s[i + m[i].value.len..]
    ensures SubFrom(s, m, i) == s[i..]
  {
    SubFromHit(s, m, i);
    SuffixSplit(s, i, i + m[i].value.len);
  }

  lemma SubFromMiss(s: string, m: seq<Option<Hit>>, i: nat)
    requires Fits(s, m) && i < |s| && m[i].None?
    ensures SubFrom(s, m, i) == [s[i]] + SubFrom(s, m, i + 1)
  {
  }

  lemma SubFromHit(s: string, m: seq<Option<Hit>>, i: nat)
    requires Fits(s, m) && i < |s| && m[i].Some?
    ensures SubFrom(s, m, i) == m[i].value.out + SubFrom(s, m, i + m[i].value.len)
  {
  }

  /**
   A rule that matches at `i` and nowhere else outside that match replaces
   just the matched text.
   */
  lemma SubOnce(r: Rule, s: string, i: nat, h: Hit)
    requires i < |s| && Matches(r, s)[i] == Some(h)
    requires forall k :: 0 <= k < i ==> Matches(r, s)[k].None?
    requires forall k :: i + h.len <= k < |s| ==> Matches(r, s)[k].None?
    ensures i + h.len <= |s|
    ensures Sub(r, s) == s[..i] + h.out + s[i + h.len..]
  {
    SubOnceFrom(s, Matches(r, s), i, h);
  }

  lemma SubOnceFrom(s: string, m: seq<Option<Hit>>, i: nat, h: Hit)
    requires Fits(s, m) && i < |s| && m[i] == Some(h)
    requires forall k :: 0 <= k < i ==> m[k].None?
    requires forall k :: i + h.len <= k < |s| ==> m[k].None?
    ensures i + h.len <= |s|
    ensures SubFrom(s, m, 0) == s[..i] + h.out + s[i + h.len..]
  {
    var n := i + h.len;
    SelfHitsIdentity(s, m, n);
    SubPrefixCopied(s, m, 0, i);
    assert s[0..i] == s[..i];
    var tail := SubFrom(s, m, n);
    assert SubFrom(s, m, i) == h.out + tail;
    assert tail == s[n..];
  }

  /** Where the table has no match in `[j, i)`, the scan copies that stretch. */
  lemma {:induction false} SubPrefixCopied(s: string, m: seq<Option<Hit>>, j: nat, i: nat)
    requires Fits(s, m) && j <= i <= |s|
    requires forall k :: j <= k < i ==> m[k].None?
    ensures SubFrom(s, m, j) == s[j..i] + SubFrom(s, m, i)
    decreases i - j
  {
    if j < i {
      SubPrefixCopied(s, m, j + 1, i);
      CopyStep(s, m, j, i);
    }
  }

  lemma CopyStep(s: string, m: seq<Option<Hit>>, j: nat, i: nat)
    requires Fits(s, m) && j < i <= |s| && m[j].None?
    requires SubFrom(s, m, j + 1) == s[j + 1..i] + SubFrom(s, m, i)
    ensures SubFrom(s, m, j) == s[j..i] + SubFrom(s, m, i)
  {
    var rest := SubFrom(s, m, i);
    assert SubFrom(s, m, j) == [s[j]] + SubFrom(s, m, j + 1);
    assert s[j..i] == [s[j]] + s[j + 1..i];
    assert [s[j]] + (s[j + 1..i] + rest) == ([s[j]] + s[j + 1..i]) + rest;
  }

  /** A rule that matches nowhere leaves the text unchanged. */
  lemma NoMatchIdentity(r: Rule, s: string)
    requires forall k :: 0 <= k < |s| ==> Match(r, s, k).None?
    ensures Sub(r, s) == s
  {
    SelfHitsIdentity(s, Matches(r, s), 0);
  }

  /** A text that does not contain the rule's anchor is left unchanged by it. */
  lemma AnchorAbsentIdentity(r: Rule, s: string)
    requires forall k :: !KeywordAt(s, k, Anchor(r))
    ensures Sub(r, s) == s
  {
    forall k | 0 <= k < |s| ensures Match(r, s, k).None? {
      MatchContainsAnchor(r, s, k);
    }
    NoMatchIdentity(r, s);
  }
}
