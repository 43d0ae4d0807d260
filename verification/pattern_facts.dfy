/**
 What the matchers of the more involved patterns accept and produce: the
 group structure of each match, stated without reference to how the
 matcher searches for it. For rule 5 the shape also states which split the
 greedy and lazy quantifiers choose, so that it fixes the match.
 */
module PatternFacts {
  import opened Chars
  import opened Patterns

  /**
   A lazy name starting at `g` can end at `p`: the `\s+UNSIGNED` tail can
   start at `p`, and no newline lies between.
   */
  predicate Reaches(s: string, g: nat, p: nat) {
    g <= p < |s| && TailAt(s, p) && forall j :: g <= j < p ==> s[j] != '\n'
  }

  /**
   The span `[i, e)` has the shape `(\w+\s+)(.*?)(\s+UNSIGNED)`: a word
   `[i, a)`, whitespace `[a, g)`, the lazy name `[g, p)` (no newline, and no
   earlier place where the tail could start), whitespace `[p, e - 8)` and the
   keyword in the last eight characters. The greedy `\s+` of group 1 gives
   back whitespace only as far as needed: from no later start inside the
   whitespace after the word could a name reach a tail.
   */
  ghost predicate UnsignedShape(s: string, i: nat, a: nat, g: nat, p: nat, e: nat) {
    8 <= e <= |s| && i < a < g <= p < e - 8 && KeywordAt(s, e - 8, "UNSIGNED")
    && AllIn(s[i..a], Word) && AllIn(s[a..g], Space) && AllIn(s[p..e - 8], Space)
    && (forall j :: g <= j < p ==> s[j] != '\n')
    && (forall j {:trigger TailAt(s, j)} :: g <= j < p ==> !TailAt(s, j))
    && (forall g2, q {:trigger Reaches(s, g2, q)} :: g < g2 <= RunEnd(s, a, Space) ==> !Reaches(s, g2, q))
  }

  /** Where the lazy name finds no end, every tail after its start has a newline before it. */
  lemma {:induction false} LazyNameMisses(s: string, g: nat, q: nat)
    requires g <= |s| && LazyName(s, g).None?
    ensures !Reaches(s, g, q)
    decreases |s| - g
  {
    if g < |s| && s[g] != '\n' && g < q {
      LazyNameMisses(s, g + 1, q);
    }
  }

  /**
   The shape pins the match down: at a given start there is at most one way
   to split a span into rule 5's groups, and at most one end.
   */
  lemma UnsignedShapeUnique(s: string, i: nat, a: nat, g: nat, p: nat, e: nat, a2: nat, g2: nat, p2: nat, e2: nat)
    requires UnsignedShape(s, i, a, g, p, e) && UnsignedShape(s, i, a2, g2, p2, e2)
    ensures a == a2 && g == g2 && p == p2 && e == e2
  {
    ShapeParts(s, i, a, g, p, e);
    ShapeParts(s, i, a2, g2, p2, e2);
    assert a == a2;
    assert Reaches(s, g, p) && Reaches(s, g2, p2);
    assert g == g2;
  }

  /** The runs and the tail a shape is made of, as `RunEnd` and `TailAt` see them. */
  lemma ShapeParts(s: string, i: nat, a: nat, g: nat, p: nat, e: nat)
    requires UnsignedShape(s, i, a, g, p, e)
    ensures RunEnd(s, i, Word) == a && g <= RunEnd(s, a, Space)
    ensures RunEnd(s, p, Space) == e - 8 && TailAt(s, p) && Reaches(s, g, p)
  {
    assert In(Space, s[a..g][0]);
    MaximalRun(s, i, a, Word);
    RunCovers(s, a, g, Space);
    KeywordChar(s, e - 8, "UNSIGNED", 0);
    MaximalRun(s, p, e - 8, Space);
    assert In(Space, s[p..e - 8][0]);
  }

  /** A slice of `k` characters followed by a character outside `k` is a maximal run. */
  lemma MaximalRun(s: string, i: nat, e: nat, k: Class)
    requires i <= e < |s| && AllIn(s[i..e], k) && !In(k, s[e])
    ensures RunEnd(s, i, k) == e
  {
    forall j | i <= j < e ensures In(k, s[j]) {
      assert s[j] == s[i..e][j - i];
    }
    RunEndIs(s, i, e, k);
  }

  /** Where no start in `(g, b]` lets the lazy name end, no start there reaches a tail. */
  lemma NoNameNoReach(s: string, g: nat, b: nat)
    requires b <= |s| && NoNameIn(s, g, b)
    ensures forall g2, q {:trigger Reaches(s, g2, q)} :: g < g2 <= b ==> !Reaches(s, g2, q)
  {
    forall g2, q | g < g2 <= b ensures !Reaches(s, g2, q) {
      LazyNameMisses(s, g2, q);
    }
  }

  /**
   Rule 5's match: a word, whitespace, the lazy name, whitespace, `UNSIGNED`.
   The stripped word (group 1) is used as the type and the stripped name
   group (group 2) as the column name, and the keyword itself is dropped.
   */
  lemma UnsignedMatchShape(s: string, i: nat)
    requires i < |s| && UnsignedAt(s, i).Some?
    ensures var h := UnsignedAt(s, i).value;
            var a := RunEnd(s, i, Word);
            var gp := UnsignedSplit(s, a, RunEnd(s, a, Space));
            gp.Some? && UnsignedShape(s, i, a, gp.value.0, gp.value.1, i + h.len)
            && h.out == CheckConstraint(s[i..a], Strip(s[gp.value.0..gp.value.1]))
  {
    var a := RunEnd(s, i, Word);
    var b := RunEnd(s, a, Space);
    var gp := UnsignedSplit(s, a, b);
    var g := gp.value.0;
    var p := gp.value.1;
    var k := RunEnd(s, p, Space);
    assert UnsignedAt(s, i).value.len == k + 8 - i;
    RunSlice(s, i, a, Word);
    RunSlice(s, a, g, Space);
    RunSlice(s, p, k, Space);
    NoNameNoReach(s, g, b);
    assert UnsignedShape(s, i, a, g, p, k + 8);
    StripTypeGroup(s, i, a, g);
  }

  /**
   Rule 11's groups: the first runs to the first comma, the second starts after
   the whitespace that follows it (or on the last of that whitespace when
   nothing else precedes the second comma) and runs to the second comma, and
   the count is the digit run that follows, closed by `)`. The groups are
   copied in order into `split_part`.
   */
  lemma SubstringIndexGroups(s: string, i: nat)
    requires i < |s| && SubstringIndexAt(s, i).Some?
    ensures var h := SubstringIndexAt(s, i).value;
            exists c1: nat, g: nat, c2: nat, w: nat, e: nat ::
                 SubstringIndexShape(s, i, c1, g, c2, w, e) && h.len == e + 1 - i
                 && h.out == "split_part(" + s[i + 16..c1] + ", " + s[g..c2] + ", " + s[w..e] + ")"
  {
    var r := SubstringIndexSplit(s, i).value;
    assert SubstringIndexShape(s, i, r.0, r.1, r.2, r.3, r.4);
  }

  /**
   Rule 9's groups: the offset digits after `LIMIT` and its whitespace, and the
   count digits after the comma, swapped in the replacement. The count cannot
   be followed by another digit.
   */
  lemma LimitGroups(s: string, i: nat)
    requires i < |s| && LimitAt(s, i).Some?
    ensures var h := LimitAt(s, i).value;
            BoundaryDigit(s, i + h.len)
            && exists p: nat, q: nat, c: nat, u: nat, v: nat ::
                 LimitShape(s, i, p, q, c, u, v) && h.len == v - i
                 && h.out == "LIMIT " + s[u..v] + " OFFSET " + s[p..q]
  {
    var r := LimitSplit(s, i).value;
    assert LimitShape(s, i, r.0, r.1, r.2, r.3, r.4);
  }

  /** The first place from `p` on where the tail can start is the one `LazyName` finds. */
  lemma {:induction false} LazyNameIs(s: string, p: nat, n: nat)
    requires p <= n < |s| && TailAt(s, n)
    requires forall k :: p <= k < n ==> !TailAt(s, k) && s[k] != '\n'
    ensures LazyName(s, p) == Some(n)
    decreases n - p
  {
    if p < n {
      LazyNameIs(s, p + 1, n);
    }
  }

  /** A text that neither starts nor ends with whitespace is its own strip. */
  lemma StripUnspaced(x: string)
    requires |x| > 0 && !IsSpace(x[0]) && !IsSpace(x[|x| - 1])
    ensures Strip(x) == x
  {
    assert RunEnd(x, 0, Space) == 0;
    assert SpaceRunStart(x, |x|) == |x|;
  }

  lemma StripTypeGroup(s: string, i: nat, a: nat, g: nat)
    requires i < a < g <= |s|
    requires AllIn(s[i..a], Word) && AllIn(s[a..g], Space)
    ensures Strip(s[i..g]) == s[i..a]
  {
    assert s[i..g][..a - i] == s[i..a];
    assert s[i..g][a - i..] == s[a..g];
    StripWordSpaces(s[i..g], a - i);
  }

  /** Stripping a word followed by whitespace leaves the word. */
  lemma StripWordSpaces(x: string, n: nat)
    requires 0 < n <= |x|
    requires AllIn(x[..n], Word) && AllIn(x[n..], Space)
    ensures Strip(x) == x[..n]
  {
    assert x[0] == x[..n][0];
    assert x[n - 1] == x[..n][n - 1];
    assert RunEnd(x, 0, Space) == 0;
    SpaceRunStartAt(x, |x|, n);
  }

  lemma {:induction false} SpaceRunStartAt(x: string, e: nat, n: nat)
    requires 0 < n <= e <= |x|
    requires AllIn(x[n..], Space) && !IsSpace(x[n - 1])
    ensures SpaceRunStart(x, e) == n
    decreases e
  {
    if e > n {
      assert x[e - 1] == x[n..][e - 1 - n];
      SpaceRunStartAt(x, e - 1, n);
    }
  }

  /**
   Rule 8's groups: the first runs to the first comma after `IFNULL(`, the
   second to the first `)` after that comma, and neither crosses a newline.
   */
  lemma IfnullGroups(s: string, i: nat)
    requires i < |s|
    ensures IfnullAt(s, i).Some? ==>
              var p := i + IfnullAt(s, i).value.len - 1;
              i + 7 < p < |s| && KeywordAt(s, i, "IFNULL(") && s[p] == ')'
              && (forall k :: i + 7 <= k < p ==> s[k] != '\n')
              && (exists c :: i + 7 <= c < p && s[c] == ','
                              && (forall k :: i + 7 <= k < c ==> s[k] != ',')
                              && (forall k :: c < k < p ==> s[k] != ')'))
  {
    if KeywordAt(s, i, "IFNULL(") {
      var e := LineEnd(s, i + 7);
      match First(s, i + 7, e, ',')
      case None =>
      case Some(c) =>
        match First(s, c + 1, e, ')')
        case None =>
        case Some(p) =>
          assert i + 7 <= c < p && s[c] == ','
                 && (forall k :: i + 7 <= k < c ==> s[k] != ',')
                 && (forall k :: c < k < p ==> s[k] != ')');
    }
  }

  /** Rule 8 renames the function and keeps the matched argument text verbatim. */
  lemma IfnullRenamesOnly(s: string, i: nat)
    requires i < |s|
    ensures IfnullAt(s, i).Some? ==>
              var h := IfnullAt(s, i).value;
              h.out == "COALESCE" + s[i + 6..i + h.len]
  {
    if IfnullAt(s, i).Some? {
      var e := LineEnd(s, i + 7);
      var c := First(s, i + 7, e, ',').value;
      var p := First(s, c + 1, e, ')').value;
      assert IfnullAt(s, i).value == Hit(p + 1 - i, "COALESCE(" + s[i + 7..c] + "," + s[c + 1..p] + ")");
      KeywordChar(s, i, "IFNULL(", 6);
      CoalesceText(s, i, c, p);
    }
  }

  lemma CoalesceText(s: string, i: nat, c: nat, p: nat)
    requires i + 7 <= c < p < |s| && s[i + 6] == '(' && s[c] == ',' && s[p] == ')'
    ensures "COALESCE(" + s[i + 7..c] + "," + s[c + 1..p] + ")" == "COALESCE" + s[i + 6..p + 1]
  {
    calc {
      s[i + 6..p + 1];
      s[i + 6..i + 7] + s[i + 7..c] + s[c..c + 1] + s[c + 1..p] + s[p..p + 1];
      ['('] + s[i + 7..c] + [','] + s[c + 1..p] + [')'];
    }
  }

  /**
   Rule 3b fails at `i` only when there is no `INT(` after a word boundary
   there, or no run of digits after it is closed by `)`.
   */
  lemma IntPrecisionMisses(s: string, i: nat)
    requires i < |s| && IntPrecisionAt(s, i).None?
    ensures !(BoundaryBefore(s, i) && KeywordAt(s, i, "INT("))
            || forall e :: i + 4 < e < |s| && AllIn(s[i + 4..e], Digit) ==> s[e] != ')'
  {
    if BoundaryBefore(s, i) && KeywordAt(s, i, "INT(") {
      forall e | i + 4 < e < |s| && AllIn(s[i + 4..e], Digit) ensures s[e] != ')' {
        RunCovers(s, i + 4, e, Digit);
      }
    }
  }

  /** The hit `h` at `i`, if any, ends with the keyword `UNSIGNED`. */
  predicate EndsWithUnsigned(s: string, i: nat, h: Option<Hit>) {
    h.Some? ==> 8 <= h.value.len && i + h.value.len <= |s| && KeywordAt(s, i + h.value.len - 8, "UNSIGNED")
  }

  /**
   The hit of rule 5 at `i` ends with the keyword: its last eight characters
   are `UNSIGNED`.
   */
  lemma UnsignedEndsWithKeyword(s: string, i: nat)
    requires i < |s|
    ensures EndsWithUnsigned(s, i, UnsignedAt(s, i))
  {
    if UnsignedAt(s, i).Some? {
      var a := RunEnd(s, i, Word);
      var gp := UnsignedSplit(s, a, RunEnd(s, a, Space)).value;
      assert UnsignedAt(s, i).value.len == RunEnd(s, gp.1, Space) + 8 - i;
    }
  }

  /**
   Rule 5 fails at `i` exactly when no word starts there, or when, for every
   split of the whitespace after the word, the lazy name finds no
   `\s+UNSIGNED` tail before the end of its line.
   */
  lemma UnsignedMisses(s: string, i: nat)
    requires i < |s|
    ensures var a := RunEnd(s, i, Word);
            UnsignedAt(s, i).None? <==> !IsWord(s[i]) || NoNameIn(s, a, RunEnd(s, a, Space))
  {
    if IsWord(s[i]) {
      var a := RunEnd(s, i, Word);
      var b := RunEnd(s, a, Space);
      if b > a {
        assert UnsignedAt(s, i).None? <==> UnsignedSplit(s, a, b).None?;
      }
    }
  }

  /** Rule 8 fails at `IFNULL(` only when no comma is followed by a `)` on the same line. */
  lemma IfnullMisses(s: string, i: nat)
    requires i < |s|
    ensures IfnullAt(s, i).None? ==>
              !KeywordAt(s, i, "IFNULL(")
              || forall c, p :: i + 7 <= c < p < LineEnd(s, i + 7) ==> !(s[c] == ',' && s[p] == ')')
  {
  }

}
