/**
 The rules that replace a fixed keyword by a fixed word: rule 2
 (`AUTO_?INCREMENT`), rule 3a (`\bINT\b`), rule 4
 (`\b(TINY|MEDIUM|LONG)TEXT\b`), rule 6 (`\bTINYINT\(1\)`), rule 7
 (`\bDATETIME\b`) and rule 10 (`\bNOW\(\)`).

 Each is described by a `KeywordPattern`: the keyword alternatives, whether a
 `\b` stands before and after them, and the replacement. For a pattern whose
 replacement cannot take part in a new match (`WellFormed`), the output of
 `re.sub` holds no match of the pattern, so a second application changes
 nothing.
 */
module KeywordSteps {
  import opened Chars
  import opened Patterns
  import opened Substitute

  /**
   One of the keywords `kws`, compared case-insensitively, after a word
   boundary when `bb` holds and before one when `ba` holds, replaced by `w`.
   */
  datatype KeywordPattern = KeywordPattern(kws: seq<string>, bb: bool, ba: bool, w: string)

  /** Keyword `n` of `g` matches at `k` of `u`; `b` says whether `k` follows a word boundary. */
  predicate FiresWith(g: KeywordPattern, u: string, k: nat, b: bool, n: nat)
    requires n < |g.kws|
  {
    KeywordAt(u, k, g.kws[n]) && (g.bb ==> b) && (g.ba ==> BoundaryAfter(u, k + |g.kws[n]|))
  }

  /** Some keyword of `g` matches at `k` of `u`. */
  ghost predicate Fires(g: KeywordPattern, u: string, k: nat, b: bool) {
    exists n :: 0 <= n < |g.kws| && FiresWith(g, u, k, b, n)
  }

  /**
   Whether position `k` of `u` follows a word boundary, where `b` says so for
   position 0 (`u` may be the tail of a longer text).
   */
  predicate Before(u: string, k: nat, b: bool) {
    if k == 0 then b else k <= |u| && !IsWord(u[k - 1])
  }

  /** No keyword of `g` matches anywhere in `u`. */
  ghost predicate Free(g: KeywordPattern, u: string, b: bool) {
    forall k :: 0 <= k < |u| ==> !Fires(g, u, k, Before(u, k, b))
  }

  /** `m` is the match table of `g` on `s`: a match exactly where a keyword fires, replaced by `w`. */
  ghost predicate Table(g: KeywordPattern, s: string, m: seq<Option<Hit>>) {
    Fits(s, m)
    && forall k :: 0 <= k < |s| ==>
         (m[k].Some? <==> Fires(g, s, k, BoundaryBefore(s, k)))
         && (m[k].Some? ==> m[k].value.out == g.w)
  }

  /**
   Some character of `x` differs from the keyword `kw` laid over it, or
   (with `ba`) the keyword ends inside `x`, before a word character.
   */
  function Clash(x: string, kw: string, ba: bool): bool
    decreases |x|
  {
    if x == [] then false
    else if kw == [] then ba
    else Lower(x[0]) != Lower(kw[0]) || Clash(x[1..], kw[1..], ba)
  }

  /**
   The conditions under which the replacement cannot take part in a match:
   it is a non-empty word; every keyword starts with a word character; no
   keyword can match at a place of the replacement where a match may start;
   and the replacement's first character does not occur inside a keyword,
   except right after a word character when a `\b` must precede the match.
   */
  ghost predicate WellFormed(g: KeywordPattern) {
    |g.w| > 0 && AllIn(g.w, Word)
    && (forall n :: 0 <= n < |g.kws| ==> |g.kws[n]| > 0 && IsWord(g.kws[n][0]))
    && (forall n, k :: 0 <= n < |g.kws| && 0 <= k < |g.w| && (k == 0 || !g.bb) ==>
          Clash(g.w[k..], g.kws[n], g.ba))
    && (forall n :: 0 <= n < |g.kws| ==> Fresh(g.kws[n], g.w[0], g.bb))
  }

  /** `c0` does not occur inside `kw`, except right after a word character when `bb` holds. */
  predicate Fresh(kw: string, c0: char, bb: bool) {
    forall j :: 1 <= j < |kw| ==> Lower(c0) != Lower(kw[j]) || (bb && IsWord(kw[j - 1]))
  }

  lemma FreshAt(kw: string, c0: char, bb: bool, j: nat)
    requires Fresh(kw, c0, bb) && 1 <= j < |kw|
    ensures Lower(c0) != Lower(kw[j]) || (bb && IsWord(kw[j - 1]))
  {
    assert IsWord(kw[j - 1]) || !IsWord(kw[j - 1]);
  }

  /** A keyword made of word characters leaves `c0` free after `\b`. */
  lemma FreshInWord(kw: string, c0: char)
    requires AllIn(kw, Word)
    ensures Fresh(kw, c0, true)
  {
    forall j | 1 <= j < |kw| ensures Lower(c0) != Lower(kw[j]) || IsWord(kw[j - 1]) {
      assert In(Word, kw[j - 1]);
    }
  }

  /** A keyword in which `c0` does not occur at all leaves it free. */
  lemma FreshOutside(kw: string, c0: char, bb: bool)
    requires forall j :: 0 <= j < |kw| ==> Lower(kw[j]) != Lower(c0)
    ensures Fresh(kw, c0, bb)
  {
  }

  /** Two texts that differ at some position of both clash. */
  lemma {:induction false} ClashAt(x: string, kw: string, ba: bool, j: nat)
    requires j < |x| && j < |kw| && Lower(x[j]) != Lower(kw[j])
    ensures Clash(x, kw, ba)
    decreases j
  {
    if j > 0 && Lower(x[0]) == Lower(kw[0]) {
      ClashAt(x[1..], kw[1..], ba, j - 1);
    }
  }

  // ---------------------------------------------------------------------------
  // Positions inside the replacement

  /** A keyword cannot match where it clashes with the text under it. */
  lemma {:induction false} ClashNoFire(u: string, p: nat, x: string, kw: string, ba: bool)
    requires p + |x| <= |u| && u[p..p + |x|] == x && AllIn(x, Word) && Clash(x, kw, ba)
    ensures !(KeywordAt(u, p, kw) && (ba ==> BoundaryAfter(u, p + |kw|)))
    decreases |x|
  {
    assert u[p] == x[0];
    if kw != [] && Lower(x[0]) == Lower(kw[0]) {
      assert u[p + 1..p + 1 + |x[1..]|] == x[1..];
      ClashNoFire(u, p + 1, x[1..], kw[1..], ba);
      if KeywordAt(u, p, kw) {
        forall j | 0 <= j < |kw[1..]| ensures Lower(u[p + 1 + j]) == Lower(kw[1..][j]) {
          KeywordChar(u, p, kw, j + 1);
        }
      }
    }
  }

  /** In a text that starts with the replacement, no match starts inside the replacement. */
  lemma NoFireInReplacement(g: KeywordPattern, u: string, b: bool, k: nat)
    requires WellFormed(g) && |g.w| <= |u| && u[..|g.w|] == g.w && k < |g.w|
    ensures !Fires(g, u, k, Before(u, k, b))
  {
    if k > 0 {
      assert u[k - 1] == g.w[k - 1];
    }
    forall n | 0 <= n < |g.kws| ensures !FiresWith(g, u, k, Before(u, k, b), n) {
      if k == 0 || !g.bb {
        assert u[k..k + |g.w[k..]|] == g.w[k..];
        ClashNoFire(u, k, g.w[k..], g.kws[n], g.ba);
      }
    }
  }

  // ---------------------------------------------------------------------------
  // Positions after a prefix

  /** A keyword matches after a prefix `x` exactly where it matches in the rest. */
  lemma FiresShift(g: KeywordPattern, x: string, rest: string, k: nat, b: bool, n: nat)
    requires n < |g.kws| && |x| <= k
    ensures FiresWith(g, x + rest, k, b, n) <==> FiresWith(g, rest, k - |x|, b, n)
  {
    var u := x + rest;
    var kw := g.kws[n];
    if KeywordAt(u, k, kw) {
      forall j | 0 <= j < |kw| ensures Lower(rest[k - |x| + j]) == Lower(kw[j]) {
        KeywordChar(u, k, kw, j);
      }
    }
    if KeywordAt(rest, k - |x|, kw) {
      forall j | 0 <= j < |kw| ensures Lower(u[k + j]) == Lower(kw[j]) {
        KeywordChar(rest, k - |x|, kw, j);
      }
    }
    if k + |kw| < |u| {
      assert u[k + |kw|] == rest[k - |x| + |kw|];
    }
  }

  /**
   A text made of a prefix `x` and a match-free rest is match-free once no
   match starts inside `x`.
   */
  lemma FreeAppend(g: KeywordPattern, x: string, rest: string, b: bool)
    requires |x| > 0 && Free(g, rest, !IsWord(x[|x| - 1]))
    requires forall k :: 0 <= k < |x| ==> !Fires(g, x + rest, k, Before(x + rest, k, b))
    ensures Free(g, x + rest, b)
  {
    var u := x + rest;
    forall k | |x| <= k < |u| ensures !Fires(g, u, k, Before(u, k, b)) {
      var c := Before(rest, k - |x|, !IsWord(x[|x| - 1]));
      assert Before(u, k, b) == c by {
        if k > |x| {
          assert u[k - 1] == rest[k - |x| - 1];
        }
      }
      forall n | 0 <= n < |g.kws| ensures !FiresWith(g, u, k, c, n) {
        FiresShift(g, x, rest, k, c, n);
      }
    }
  }

  /** Without a boundary before it, position 0 matches no more than with one. */
  lemma FreeWeaken(g: KeywordPattern, u: string, b: bool)
    requires Free(g, u, b)
    ensures Free(g, u, false)
  {
    forall k | 0 <= k < |u| ensures !Fires(g, u, k, Before(u, k, false)) {
      if k == 0 {
        assert !Fires(g, u, 0, Before(u, 0, b));
        FiresWeaken(g, u, b);
      } else {
        assert !Fires(g, u, k, Before(u, k, b));
        assert Before(u, k, b) == Before(u, k, false);
      }
    }
  }

  lemma FiresWeaken(g: KeywordPattern, u: string, b: bool)
    ensures Fires(g, u, 0, false) ==> Fires(g, u, 0, b)
  {
    if Fires(g, u, 0, false) {
      var n :| 0 <= n < |g.kws| && FiresWith(g, u, 0, false, n);
      assert FiresWith(g, u, 0, b, n);
    }
  }

  // ---------------------------------------------------------------------------
  // Copied text

  /** The output from `p` starts with a character of the same class as `s[p]`. */
  lemma HeadClass(g: KeywordPattern, s: string, m: seq<Option<Hit>>, p: nat)
    requires WellFormed(g) && Table(g, s, m) && p < |s|
    ensures var v := SubFrom(s, m, p);
            |v| > 0 && IsWord(v[0]) == IsWord(s[p])
  {
    if m[p].Some? {
      SubFromHit(s, m, p);
      var n :| 0 <= n < |g.kws| && FiresWith(g, s, p, BoundaryBefore(s, p), n);
      KeywordChar(s, p, g.kws[n], 0);
      LowerClasses(s[p]);
      LowerClasses(g.kws[n][0]);
    } else {
      SubFromMiss(s, m, p);
    }
  }

  /** At a match, the output starts with the replacement's first character, and a word boundary if the pattern asks for one. */
  lemma HitStart(g: KeywordPattern, s: string, m: seq<Option<Hit>>, p: nat)
    requires WellFormed(g) && Table(g, s, m) && p < |s| && m[p].Some?
    ensures var v := SubFrom(s, m, p);
            v != [] && v[0] == g.w[0] && (g.bb ==> BoundaryBefore(s, p))
  {
    SubFromHit(s, m, p);
    var n :| 0 <= n < |g.kws| && FiresWith(g, s, p, BoundaryBefore(s, p), n);
  }

  /** The first position in `[a, b)` where the table has a match, if any. */
  function FirstHit(m: seq<Option<Hit>>, a: nat, b: nat): (q: Option<nat>)
    requires a <= b <= |m|
    ensures q.Some? ==> a <= q.value < b && m[q.value].Some? && forall k :: a <= k < q.value ==> m[k].None?
    ensures q.None? ==> forall k :: a <= k < b ==> m[k].None?
    decreases b - a
  {
    if a == b then None else if m[a].Some? then Some(a) else FirstHit(m, a + 1, b)
  }

  /**
   A replacement starting with `c0` at `q`, inside the span of `kw` from `i`,
   keeps the output from `i` from spelling `kw`.
   */
  lemma CutByHit(s: string, m: seq<Option<Hit>>, i: nat, q: nat, kw: string, c0: char, bb: bool)
    requires Fits(s, m) && i < q < |s| && q < i + |kw| && Fresh(kw, c0, bb)
    requires forall k :: i <= k < q ==> m[k].None?
    requires SubFrom(s, m, q) != [] && SubFrom(s, m, q)[0] == c0 && (bb ==> BoundaryBefore(s, q))
    ensures !KeywordAt(SubFrom(s, m, i), 0, kw)
  {
    SubPrefixCopied(s, m, i, q);
    var u := SubFrom(s, m, i);
    var j := q - i;
    assert u[j] == c0 && u[j - 1] == s[q - 1];
    FreshAt(kw, c0, bb, j);
    LowerClasses(s[q - 1]);
    LowerClasses(kw[j - 1]);
  }

  /** Where the input is copied, a match of the output at that place is one of the input. */
  lemma CopiedFires(g: KeywordPattern, s: string, m: seq<Option<Hit>>, i: nat, n: nat)
    requires WellFormed(g) && Table(g, s, m) && i < |s| && m[i].None? && n < |g.kws|
    ensures FiresWith(g, SubFrom(s, m, i), 0, BoundaryBefore(s, i), n) ==> FiresWith(g, s, i, BoundaryBefore(s, i), n)
  {
    var kw := g.kws[n];
    var e := if i + |kw| <= |s| then i + |kw| else |s|;
    var q := FirstHit(m, i + 1, e);
    if q.Some? {
      HitStart(g, s, m, q.value);
    }
    if e < |s| {
      HeadClass(g, s, m, e);
    }
    CopiedSpan(s, m, i, e, q, kw, g.w[0], g.bb, g.ba);
  }

  /**
   The output from a copied position spells `kw` (and ends a word after it, when
   `ba` holds) only where the input does: either the input is copied over the
   whole span, or the first match inside the span breaks the keyword.
   */
  lemma CopiedSpan(s: string, m: seq<Option<Hit>>, i: nat, e: nat, q: Option<nat>, kw: string, c0: char, bb: bool, ba: bool)
    requires Fits(s, m) && i < e <= |s| && (e == i + |kw| || e == |s| < i + |kw|) && Fresh(kw, c0, bb)
    requires q == FirstHit(m, i + 1, e)
    requires q.Some? ==> SubFrom(s, m, q.value) != [] && SubFrom(s, m, q.value)[0] == c0 && (bb ==> BoundaryBefore(s, q.value))
    requires e < |s| ==> SubFrom(s, m, e) != [] && IsWord(SubFrom(s, m, e)[0]) == IsWord(s[e])
    requires m[i].None?
    ensures var u := SubFrom(s, m, i);
            KeywordAt(u, 0, kw) && (ba ==> BoundaryAfter(u, |kw|)) ==>
              KeywordAt(s, i, kw) && (ba ==> BoundaryAfter(s, i + |kw|))
  {
    match q
    case Some(p) =>
      CutByHit(s, m, i, p, kw, c0, bb);
    case None =>
      CopiedWhole(s, m, i, e, kw, ba);
  }

  /**
   Where the input is copied over the whole span of `kw`, the keyword and the
   boundary after it are those of the input.
   */
  lemma CopiedWhole(s: string, m: seq<Option<Hit>>, i: nat, e: nat, kw: string, ba: bool)
    requires Fits(s, m) && i < e <= |s| && (e == i + |kw| || e == |s| < i + |kw|)
    requires forall k :: i <= k < e ==> m[k].None?
    requires e < |s| ==> SubFrom(s, m, e) != [] && IsWord(SubFrom(s, m, e)[0]) == IsWord(s[e])
    ensures var u := SubFrom(s, m, i);
            KeywordAt(u, 0, kw) && (ba ==> BoundaryAfter(u, |kw|)) ==>
              KeywordAt(s, i, kw) && (ba ==> BoundaryAfter(s, i + |kw|))
  {
    SubPrefixCopied(s, m, i, e);
    var u := SubFrom(s, m, i);
    if e == |s| {
      assert SubFrom(s, m, e) == [];
    }
    if KeywordAt(u, 0, kw) {
      CopiedKeyword(s, u, i, kw, SubFrom(s, m, e));
      if e < |s| {
        assert u[|kw|] == SubFrom(s, m, e)[0];
      }
    }
  }

  /** A keyword at the start of copied text is a keyword of the input. */
  lemma CopiedKeyword(s: string, u: string, i: nat, kw: string, rest: string)
    requires i + |kw| <= |s| && u == s[i..i + |kw|] + rest && KeywordAt(u, 0, kw)
    ensures KeywordAt(s, i, kw)
  {
    forall j | 0 <= j < |kw| ensures Lower(s[i + j]) == Lower(kw[j]) {
      KeywordChar(u, 0, kw, j);
      assert u[j] == s[i + j];
    }
  }

  // ---------------------------------------------------------------------------
  // The whole output

  /** The output of the scan from `i` on holds no match. */
  lemma {:induction false} FreeFrom(g: KeywordPattern, s: string, m: seq<Option<Hit>>, i: nat)
    requires WellFormed(g) && Table(g, s, m) && i <= |s|
    ensures Free(g, SubFrom(s, m, i), BoundaryBefore(s, i))
    decreases |s| - i
  {
    if i == |s| {
      assert SubFrom(s, m, i) == [];
    } else if m[i].Some? {
      var len := m[i].value.len;
      FreeFrom(g, s, m, i + len);
      FreeHit(g, s, m, i);
    } else {
      FreeFrom(g, s, m, i + 1);
      FreeMiss(g, s, m, i);
    }
  }

  lemma FreeHit(g: KeywordPattern, s: string, m: seq<Option<Hit>>, i: nat)
    requires WellFormed(g) && Table(g, s, m) && i < |s| && m[i].Some?
    requires Free(g, SubFrom(s, m, i + m[i].value.len), BoundaryBefore(s, i + m[i].value.len))
    ensures Free(g, SubFrom(s, m, i), BoundaryBefore(s, i))
  {
    var rest := SubFrom(s, m, i + m[i].value.len);
    var u := SubFrom(s, m, i);
    SubFromHit(s, m, i);
    assert u == g.w + rest;
    FreeWeaken(g, rest, BoundaryBefore(s, i + m[i].value.len));
    assert u[..|g.w|] == g.w;
    forall k | 0 <= k < |g.w| ensures !Fires(g, u, k, Before(u, k, BoundaryBefore(s, i))) {
      NoFireInReplacement(g, u, BoundaryBefore(s, i), k);
    }
    FreeAppend(g, g.w, rest, BoundaryBefore(s, i));
  }

  lemma FreeMiss(g: KeywordPattern, s: string, m: seq<Option<Hit>>, i: nat)
    requires WellFormed(g) && Table(g, s, m) && i < |s| && m[i].None?
    requires Free(g, SubFrom(s, m, i + 1), BoundaryBefore(s, i + 1))
    ensures Free(g, SubFrom(s, m, i), BoundaryBefore(s, i))
  {
    var rest := SubFrom(s, m, i + 1);
    var u := SubFrom(s, m, i);
    SubFromMiss(s, m, i);
    assert u == [s[i]] + rest;
    forall k | 0 <= k < 1 ensures !Fires(g, u, k, Before(u, k, BoundaryBefore(s, i))) {
      forall n | 0 <= n < |g.kws| ensures !FiresWith(g, u, 0, BoundaryBefore(s, i), n) {
        CopiedFires(g, s, m, i, n);
      }
    }
    FreeAppend(g, [s[i]], rest, BoundaryBefore(s, i));
  }

  /**
   After a keyword rule, no keyword of the rule matches anywhere in the
   output, with the word boundaries the output itself has.
   */
  lemma LeavesNone(g: KeywordPattern, s: string, m: seq<Option<Hit>>)
    requires WellFormed(g) && Table(g, s, m)
    ensures forall k :: 0 <= k < |SubFrom(s, m, 0)| ==>
              !Fires(g, SubFrom(s, m, 0), k, BoundaryBefore(SubFrom(s, m, 0), k))
  {
    var t := SubFrom(s, m, 0);
    FreeFrom(g, s, m, 0);
    forall k | 0 <= k < |t| ensures !Fires(g, t, k, BoundaryBefore(t, k)) {
      assert Before(t, k, true) == BoundaryBefore(t, k);
    }
  }

  // ---------------------------------------------------------------------------
  // Rules as keyword patterns

  /** Rule `r`'s matcher is the keyword pattern `g`, on every text and at every position. */
  ghost predicate Describes(r: Rule, g: KeywordPattern) {
    forall u: string, k: nat {:trigger Match(r, u, k)} :: k < |u| ==>
      (Match(r, u, k).Some? <==> Fires(g, u, k, BoundaryBefore(u, k)))
      && (Match(r, u, k).Some? ==> Match(r, u, k).value.out == g.w)
  }

  /** After a rule described by a well-formed keyword pattern, the rule matches nowhere. */
  lemma DescribedLeavesNone(r: Rule, g: KeywordPattern, s: string)
    requires WellFormed(g) && Describes(r, g)
    ensures forall k :: 0 <= k < |Sub(r, s)| ==> Match(r, Sub(r, s), k).None?
    ensures forall k :: 0 <= k < |Sub(r, s)| ==> !Fires(g, Sub(r, s), k, BoundaryBefore(Sub(r, s), k))
  {
    var m := Matches(r, s);
    forall k | 0 <= k < |s|
      ensures (m[k].Some? <==> Fires(g, s, k, BoundaryBefore(s, k))) && (m[k].Some? ==> m[k].value.out == g.w)
    {
      MatchesAt(r, s, k);
    }
    LeavesNone(g, s, m);
  }

  /** A rule described by a well-formed keyword pattern is idempotent. */
  lemma DescribedIdempotent(r: Rule, g: KeywordPattern, s: string)
    requires WellFormed(g) && Describes(r, g)
    ensures Sub(r, Sub(r, s)) == Sub(r, s)
  {
    DescribedLeavesNone(r, g, s);
    NoMatchIdentity(r, Sub(r, s));
  }

  lemma NotFiresWith(g: KeywordPattern, u: string, k: nat, b: bool, n: nat)
    requires n < |g.kws| && !Fires(g, u, k, b)
    ensures !FiresWith(g, u, k, b, n)
  {
  }

  // ---------------------------------------------------------------------------
  // Rule 2: AUTO_?INCREMENT becomes SERIAL

  const AutoIncrementPattern := KeywordPattern(["AUTO_INCREMENT", "AUTOINCREMENT"], false, false, "SERIAL")

  lemma AutoIncrementWellFormed(g: KeywordPattern)
    requires g == AutoIncrementPattern
    ensures WellFormed(g)
  {
    AutoIncrementFresh(g);
    forall n, k | 0 <= n < |g.kws| && 0 <= k < |g.w| ensures Clash(g.w[k..], g.kws[n], g.ba) {
      ClashAt(g.w[k..], g.kws[n], g.ba, if k == 4 then 1 else 0);
    }
  }

  lemma AutoIncrementFresh(g: KeywordPattern)
    requires g == AutoIncrementPattern
    ensures forall n :: 0 <= n < |g.kws| ==> Fresh(g.kws[n], g.w[0], g.bb) && |g.kws[n]| > 0 && IsWord(g.kws[n][0])
  {
    forall n | 0 <= n < |g.kws| ensures Fresh(g.kws[n], g.w[0], g.bb) && |g.kws[n]| > 0 && IsWord(g.kws[n][0]) {
      FreshOutside(g.kws[n], g.w[0], g.bb);
    }
  }

  lemma AutoIncrementDescribed(r: Rule, g: KeywordPattern)
    requires r == AutoIncrement && g == AutoIncrementPattern
    ensures Describes(r, g)
  {
    forall u: string, k: nat | k < |u|
      ensures (Match(r, u, k).Some? <==> Fires(g, u, k, BoundaryBefore(u, k)))
              && (Match(r, u, k).Some? ==> Match(r, u, k).value.out == g.w)
    {
      MatchIs(r, u, k);
      assert Fires(g, u, k, BoundaryBefore(u, k)) <==>
               FiresWith(g, u, k, BoundaryBefore(u, k), 0) || FiresWith(g, u, k, BoundaryBefore(u, k), 1);
    }
  }

  /** After rule 2 neither spelling of `AUTO_?INCREMENT` is left, in any letter case. */
  lemma AutoIncrementLeavesNone(s: string)
    ensures var t := Sub(AutoIncrement, s);
            forall k :: !KeywordAt(t, k, "AUTO_INCREMENT") && !KeywordAt(t, k, "AUTOINCREMENT")
  {
    var t := Sub(AutoIncrement, s);
    AutoIncrementWellFormed(AutoIncrementPattern);
    AutoIncrementDescribed(AutoIncrement, AutoIncrementPattern);
    DescribedLeavesNone(AutoIncrement, AutoIncrementPattern, s);
    forall k | 0 <= k < |t| ensures !KeywordAt(t, k, "AUTO_INCREMENT") && !KeywordAt(t, k, "AUTOINCREMENT") {
      MatchIs(AutoIncrement, t, k);
    }
  }

  /** Applying rule 2 a second time changes nothing. */
  lemma AutoIncrementIdempotent(s: string)
    ensures Sub(AutoIncrement, Sub(AutoIncrement, s)) == Sub(AutoIncrement, s)
  {
    AutoIncrementWellFormed(AutoIncrementPattern);
    AutoIncrementDescribed(AutoIncrement, AutoIncrementPattern);
    DescribedIdempotent(AutoIncrement, AutoIncrementPattern, s);
  }

  // ---------------------------------------------------------------------------
  // Rule 3a: a whole-word INT becomes INTEGER

  const IntPattern := KeywordPattern(["INT"], true, true, "INTEGER")

  lemma IntWellFormed(g: KeywordPattern)
    requires g == IntPattern
    ensures WellFormed(g)
  {
    assert g.w[0..] == g.w;
  }

  lemma IntDescribed(r: Rule, g: KeywordPattern)
    requires r == IntWord && g == IntPattern
    ensures Describes(r, g)
  {
    forall u: string, k: nat | k < |u|
      ensures (Match(r, u, k).Some? <==> Fires(g, u, k, BoundaryBefore(u, k)))
              && (Match(r, u, k).Some? ==> Match(r, u, k).value.out == g.w)
    {
      MatchIs(r, u, k);
      assert Fires(g, u, k, BoundaryBefore(u, k)) <==> FiresWith(g, u, k, BoundaryBefore(u, k), 0);
    }
  }

  /** After rule 3a no whole-word `INT` is left. */
  lemma IntWordLeavesNoInt(s: string)
    ensures forall k :: !WholeWordAt(Sub(IntWord, s), k, "INT")
  {
    var t := Sub(IntWord, s);
    IntWellFormed(IntPattern);
    IntDescribed(IntWord, IntPattern);
    DescribedLeavesNone(IntWord, IntPattern, s);
    forall k | 0 <= k < |t| ensures !WholeWordAt(t, k, "INT") {
      MatchIs(IntWord, t, k);
    }
  }

  /** Applying rule 3a a second time changes nothing. */
  lemma IntWordIdempotent(s: string)
    ensures Sub(IntWord, Sub(IntWord, s)) == Sub(IntWord, s)
  {
    IntWellFormed(IntPattern);
    IntDescribed(IntWord, IntPattern);
    DescribedIdempotent(IntWord, IntPattern, s);
  }

  // ---------------------------------------------------------------------------
  // Rule 4: TINYTEXT, MEDIUMTEXT and LONGTEXT become TEXT

  const SizedTextPattern := KeywordPattern(["TINYTEXT", "MEDIUMTEXT", "LONGTEXT"], true, true, "TEXT")

  lemma SizedTextWellFormed(g: KeywordPattern)
    requires g == SizedTextPattern
    ensures WellFormed(g)
  {
    SizedTextFresh(g);
    forall n, k | 0 <= n < |g.kws| && 0 <= k < |g.w| && (k == 0 || !g.bb) ensures Clash(g.w[k..], g.kws[n], g.ba) {
      assert g.w[k..] == g.w;
      ClashAt(g.w, g.kws[n], g.ba, if n == 0 then 1 else 0);
    }
  }

  lemma SizedTextFresh(g: KeywordPattern)
    requires g == SizedTextPattern
    ensures forall n :: 0 <= n < |g.kws| ==> Fresh(g.kws[n], g.w[0], g.bb) && |g.kws[n]| > 0 && IsWord(g.kws[n][0])
  {
    forall n | 0 <= n < |g.kws| ensures Fresh(g.kws[n], g.w[0], g.bb) && |g.kws[n]| > 0 && IsWord(g.kws[n][0]) {
      FreshInWord(g.kws[n], g.w[0]);
    }
  }

  /** A keyword made of two parts matches where its first part matches and its second follows. */
  lemma KeywordSplit(s: string, i: nat, a: string, b: string)
    ensures KeywordAt(s, i, a + b) <==> KeywordAt(s, i, a) && KeywordAt(s, i + |a|, b)
  {
    if KeywordAt(s, i, a) && KeywordAt(s, i + |a|, b) {
      forall j | 0 <= j < |a + b| ensures Lower(s[i + j]) == Lower((a + b)[j]) {
        if j >= |a| {
          KeywordChar(s, i + |a|, b, j - |a|);
        } else {
          KeywordChar(s, i, a, j);
        }
      }
    }
    if KeywordAt(s, i, a + b) {
      forall j | 0 <= j < |b| ensures Lower(s[i + |a| + j]) == Lower(b[j]) {
        KeywordChar(s, i, a + b, |a| + j);
      }
      forall j | 0 <= j < |a| ensures Lower(s[i + j]) == Lower(a[j]) {
        KeywordChar(s, i, a + b, j);
      }
    }
  }

  /** The three prefixes of rule 4 exclude one another: they differ in their first letter. */
  lemma SizePrefix(s: string, i: nat)
    ensures KeywordAt(s, i, "TINY") ==> !KeywordAt(s, i, "MEDIUM") && !KeywordAt(s, i, "LONG")
    ensures KeywordAt(s, i, "MEDIUM") ==> !KeywordAt(s, i, "LONG")
  {
    if KeywordAt(s, i, "TINY") {
      KeywordChar(s, i, "TINY", 0);
    }
    if KeywordAt(s, i, "MEDIUM") {
      KeywordChar(s, i, "MEDIUM", 0);
    }
    if KeywordAt(s, i, "LONG") {
      KeywordChar(s, i, "LONG", 0);
    }
  }

  lemma SizedTextDescribed(r: Rule, g: KeywordPattern)
    requires r == SizedText && g == SizedTextPattern
    ensures Describes(r, g)
  {
    forall u: string, k: nat | k < |u|
      ensures (Match(r, u, k).Some? <==> Fires(g, u, k, BoundaryBefore(u, k)))
              && (Match(r, u, k).Some? ==> Match(r, u, k).value.out == g.w)
    {
      MatchIs(r, u, k);
      SizedTextFires(g, u, k);
    }
  }

  /** Rule 4's matcher at one position: a prefix, then `TEXT`, between word boundaries. */
  lemma SizedTextFires(g: KeywordPattern, u: string, k: nat)
    requires g == SizedTextPattern && k < |u|
    ensures SizedTextAt(u, k).Some? <==> Fires(g, u, k, BoundaryBefore(u, k))
    ensures SizedTextAt(u, k).Some? ==> SizedTextAt(u, k).value.out == g.w
  {
    SizePrefix(u, k);
    KeywordSplit(u, k, "TINY", "TEXT");
    KeywordSplit(u, k, "MEDIUM", "TEXT");
    KeywordSplit(u, k, "LONG", "TEXT");
    assert "TINY" + "TEXT" == g.kws[0];
    assert "MEDIUM" + "TEXT" == g.kws[1];
    assert "LONG" + "TEXT" == g.kws[2];
    var b := BoundaryBefore(u, k);
    assert Fires(g, u, k, b) <==> FiresWith(g, u, k, b, 0) || FiresWith(g, u, k, b, 1) || FiresWith(g, u, k, b, 2);
  }

  /** After rule 4 no whole-word `TINYTEXT`, `MEDIUMTEXT` or `LONGTEXT` is left. */
  lemma SizedTextLeavesNone(s: string)
    ensures var t := Sub(SizedText, s);
            forall k :: !WholeWordAt(t, k, "TINYTEXT") && !WholeWordAt(t, k, "MEDIUMTEXT") && !WholeWordAt(t, k, "LONGTEXT")
  {
    var t := Sub(SizedText, s);
    SizedTextWellFormed(SizedTextPattern);
    SizedTextDescribed(SizedText, SizedTextPattern);
    DescribedLeavesNone(SizedText, SizedTextPattern, s);
    forall k | 0 <= k < |t|
      ensures !WholeWordAt(t, k, "TINYTEXT") && !WholeWordAt(t, k, "MEDIUMTEXT") && !WholeWordAt(t, k, "LONGTEXT")
    {
      SizedTextNotAt(SizedTextPattern, t, k);
    }
  }

  lemma SizedTextNotAt(g: KeywordPattern, t: string, k: nat)
    requires g == SizedTextPattern && !Fires(g, t, k, BoundaryBefore(t, k))
    ensures !WholeWordAt(t, k, "TINYTEXT") && !WholeWordAt(t, k, "MEDIUMTEXT") && !WholeWordAt(t, k, "LONGTEXT")
  {
    var b := BoundaryBefore(t, k);
    NotFiresWith(g, t, k, b, 0);
    NotFiresWith(g, t, k, b, 1);
    NotFiresWith(g, t, k, b, 2);
  }

  /** Applying rule 4 a second time changes nothing. */
  lemma SizedTextIdempotent(s: string)
    ensures Sub(SizedText, Sub(SizedText, s)) == Sub(SizedText, s)
  {
    SizedTextWellFormed(SizedTextPattern);
    SizedTextDescribed(SizedText, SizedTextPattern);
    DescribedIdempotent(SizedText, SizedTextPattern, s);
  }

  // ---------------------------------------------------------------------------
  // Rule 6: TINYINT(1) becomes BOOLEAN

  const TinyintOnePattern := KeywordPattern(["TINYINT(1)"], true, false, "BOOLEAN")

  lemma TinyintOneWellFormed(g: KeywordPattern)
    requires g == TinyintOnePattern
    ensures WellFormed(g)
  {
    assert g.w[0..] == g.w;
  }

  lemma TinyintOneDescribed(r: Rule, g: KeywordPattern)
    requires r == TinyintOne && g == TinyintOnePattern
    ensures Describes(r, g)
  {
    forall u: string, k: nat | k < |u|
      ensures (Match(r, u, k).Some? <==> Fires(g, u, k, BoundaryBefore(u, k)))
              && (Match(r, u, k).Some? ==> Match(r, u, k).value.out == g.w)
    {
      MatchIs(r, u, k);
      assert Fires(g, u, k, BoundaryBefore(u, k)) <==> FiresWith(g, u, k, BoundaryBefore(u, k), 0);
    }
  }

  /** After rule 6 no `TINYINT(1)` after a word boundary is left. */
  lemma TinyintOneLeavesNone(s: string)
    ensures var t := Sub(TinyintOne, s);
            forall k :: !(BoundaryBefore(t, k) && KeywordAt(t, k, "TINYINT(1)"))
  {
    var t := Sub(TinyintOne, s);
    TinyintOneWellFormed(TinyintOnePattern);
    TinyintOneDescribed(TinyintOne, TinyintOnePattern);
    DescribedLeavesNone(TinyintOne, TinyintOnePattern, s);
    forall k | 0 <= k < |t| ensures !(BoundaryBefore(t, k) && KeywordAt(t, k, "TINYINT(1)")) {
      MatchIs(TinyintOne, t, k);
    }
  }

  /** Applying rule 6 a second time changes nothing. */
  lemma TinyintOneIdempotent(s: string)
    ensures Sub(TinyintOne, Sub(TinyintOne, s)) == Sub(TinyintOne, s)
  {
    TinyintOneWellFormed(TinyintOnePattern);
    TinyintOneDescribed(TinyintOne, TinyintOnePattern);
    DescribedIdempotent(TinyintOne, TinyintOnePattern, s);
  }

  // ---------------------------------------------------------------------------
  // Rule 7: a whole-word DATETIME becomes TIMESTAMP

  const DatetimePattern := KeywordPattern(["DATETIME"], true, true, "TIMESTAMP")

  lemma DatetimeWellFormed(g: KeywordPattern)
    requires g == DatetimePattern
    ensures WellFormed(g)
  {
    assert g.w[0..] == g.w;
  }

  lemma DatetimeDescribed(r: Rule, g: KeywordPattern)
    requires r == Datetime && g == DatetimePattern
    ensures Describes(r, g)
  {
    forall u: string, k: nat | k < |u|
      ensures (Match(r, u, k).Some? <==> Fires(g, u, k, BoundaryBefore(u, k)))
              && (Match(r, u, k).Some? ==> Match(r, u, k).value.out == g.w)
    {
      MatchIs(r, u, k);
      assert Fires(g, u, k, BoundaryBefore(u, k)) <==> FiresWith(g, u, k, BoundaryBefore(u, k), 0);
    }
  }

  /** After rule 7 no whole-word `DATETIME` is left. */
  lemma DatetimeLeavesNone(s: string)
    ensures forall k :: !WholeWordAt(Sub(Datetime, s), k, "DATETIME")
  {
    var t := Sub(Datetime, s);
    DatetimeWellFormed(DatetimePattern);
    DatetimeDescribed(Datetime, DatetimePattern);
    DescribedLeavesNone(Datetime, DatetimePattern, s);
    forall k | 0 <= k < |t| ensures !WholeWordAt(t, k, "DATETIME") {
      MatchIs(Datetime, t, k);
    }
  }

  /** Applying rule 7 a second time changes nothing. */
  lemma DatetimeIdempotent(s: string)
    ensures Sub(Datetime, Sub(Datetime, s)) == Sub(Datetime, s)
  {
    DatetimeWellFormed(DatetimePattern);
    DatetimeDescribed(Datetime, DatetimePattern);
    DescribedIdempotent(Datetime, DatetimePattern, s);
  }

  // ---------------------------------------------------------------------------
  // Rule 10: NOW() becomes CURRENT_TIMESTAMP

  const NowPattern := KeywordPattern(["NOW()"], true, false, "CURRENT_TIMESTAMP")

  lemma NowWellFormed(g: KeywordPattern)
    requires g == NowPattern
    ensures WellFormed(g)
  {
    assert g.w[0..] == g.w;
  }

  lemma NowDescribed(r: Rule, g: KeywordPattern)
    requires r == Now && g == NowPattern
    ensures Describes(r, g)
  {
    forall u: string, k: nat | k < |u|
      ensures (Match(r, u, k).Some? <==> Fires(g, u, k, BoundaryBefore(u, k)))
              && (Match(r, u, k).Some? ==> Match(r, u, k).value.out == g.w)
    {
      MatchIs(r, u, k);
      assert Fires(g, u, k, BoundaryBefore(u, k)) <==> FiresWith(g, u, k, BoundaryBefore(u, k), 0);
    }
  }

  /** After rule 10 no `NOW()` after a word boundary is left. */
  lemma NowLeavesNone(s: string)
    ensures var t := Sub(Now, s);
            forall k :: !(BoundaryBefore(t, k) && KeywordAt(t, k, "NOW()"))
  {
    var t := Sub(Now, s);
    NowWellFormed(NowPattern);
    NowDescribed(Now, NowPattern);
    DescribedLeavesNone(Now, NowPattern, s);
    forall k | 0 <= k < |t| ensures !(BoundaryBefore(t, k) && KeywordAt(t, k, "NOW()")) {
      MatchIs(Now, t, k);
    }
  }

  /** Applying rule 10 a second time changes nothing. */
  lemma NowIdempotent(s: string)
    ensures Sub(Now, Sub(Now, s)) == Sub(Now, s)
  {
    NowWellFormed(NowPattern);
    NowDescribed(Now, NowPattern);
    DescribedIdempotent(Now, NowPattern, s);
  }
}
