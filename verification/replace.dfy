/**
 Rule 5 of the rewrite. Unlike the other rules it is not one `re.sub`: the
 matches are collected with `re.finditer` on the text as it was before the
 step, and then, match by match, every occurrence of the matched text in
 the current text is replaced with `str.replace`.
 */
module UnsignedStep {
  import opened Chars
  import opened Patterns
  import opened Substitute

  /** `pat` occurs at position `k` of `t`. */
  predicate OccursAt(t: string, k: nat, pat: string) {
    k + |pat| <= |t| && t[k..k + |pat|] == pat
  }

  /** The occurrences of a non-empty literal `pat`, each to be replaced by `rep`. */
  function LiteralTable(t: string, pat: string, rep: string): (m: seq<Option<Hit>>)
    requires |pat| > 0
    ensures Fits(t, m)
    ensures forall k :: 0 <= k < |t| ==> (m[k].Some? <==> OccursAt(t, k, pat))
    ensures forall k :: 0 <= k < |t| && m[k].Some? ==> m[k].value == Hit(|pat|, rep)
  {
    seq(|t|, k requires 0 <= k < |t| => if OccursAt(t, k, pat) then Some(Hit(|pat|, rep)) else None)
  }

  /**
   Python's `t.replace(pat, rep)` for a non-empty `pat`: the occurrences are
   found left to right without overlapping, like the matches of a literal
   pattern.
   */
  function ReplaceAll(t: string, pat: string, rep: string): string
    requires |pat| > 0
  {
    SubFrom(t, LiteralTable(t, pat, rep), 0)
  }

  /**
   What `t.replace(pat, rep)` rewrites: the spans it replaces are occurrences
   of `pat`, in order and without overlapping, each replaced by `rep`, and
   every occurrence of `pat` lies inside one of them. So no occurrence is
   passed over, and an occurrence is skipped only where it overlaps the one
   before.
   */
  lemma ReplaceSpans(t: string, pat: string, rep: string)
    requires |pat| > 0
    ensures var f := FindFrom(t, LiteralTable(t, pat, rep), 0);
            ReplaceAll(t, pat, rep) == Splice(t, f, 0)
            && (forall j :: 0 <= j < |f| ==> OccursAt(t, f[j].0, pat) && f[j].1 == Hit(|pat|, rep))
            && (forall k :: OccursAt(t, k, pat) ==> Covered(f, k))
  {
    var m := LiteralTable(t, pat, rep);
    SubIsSplice(t, m, 0);
    FindFromCovers(t, m, 0);
  }

  /**
   Where `pat` occurs at `k` and at no place outside that occurrence,
   `t.replace(pat, rep)` replaces just that occurrence.
   */
  lemma ReplaceOnce(t: string, pat: string, rep: string, k: nat)
    requires |pat| > 0 && OccursAt(t, k, pat)
    requires forall j: nat :: OccursAt(t, j, pat) ==> k <= j < k + |pat|
    ensures ReplaceAll(t, pat, rep) == t[..k] + rep + t[k + |pat|..]
  {
    var m := LiteralTable(t, pat, rep);
    SubOnceFrom(t, m, k, Hit(|pat|, rep));
  }

  /** Replacing a literal that does not occur changes nothing. */
  lemma ReplaceAbsent(t: string, pat: string, rep: string)
    requires |pat| > 0
    requires forall k :: !OccursAt(t, k, pat)
    ensures ReplaceAll(t, pat, rep) == t
  {
    SelfHitsIdentity(t, LiteralTable(t, pat, rep), 0);
  }

  /** Replacing a literal by itself changes nothing. */
  lemma ReplaceSame(t: string, pat: string)
    requires |pat| > 0
    ensures ReplaceAll(t, pat, pat) == t
  {
    SelfHitsIdentity(t, LiteralTable(t, pat, pat), 0);
  }

  /**
   The loop of rule 5: for each match found in `s`, in order, replace every
   occurrence of the matched text in the current text `t`.
   */
  function ReplaceEach(t: string, s: string, f: seq<(nat, Hit)>): string
    requires Spans(s, f, 0)
    decreases |f|
  {
    if f == [] then t
    else
      SpansWeaken(s, f[1..], f[0].0 + f[0].1.len, 0);
      ReplaceEach(ReplaceAll(t, s[f[0].0..f[0].0 + f[0].1.len], f[0].1.out), s, f[1..])
  }

  /** Rule 5 applied to `s`. */
  function Unsigned(s: string): string {
    ReplaceEach(s, s, FindAll(UnsignedColumn, s))
  }

  /** Text without the keyword `UNSIGNED` (in any case) is left unchanged by rule 5. */
  lemma UnsignedAbsentIdentity(s: string)
    requires forall k :: !KeywordAt(s, k, "UNSIGNED")
    ensures Unsigned(s) == s
  {
    var f := FindAll(UnsignedColumn, s);
    if f != [] {
      MatchContainsAnchor(UnsignedColumn, s, f[0].0);
    }
  }
}
