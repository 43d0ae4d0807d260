/**
 The whole conversion: the sixteen numbered steps (nineteen substitutions)
 applied one after the other to the text of the input file, each to the
 result of the one before.
 */
module Pipeline {
  import opened Chars
  import opened Patterns
  import opened Substitute
  import opened UnsignedStep

  /** One step: a `re.sub` of one rule, or rule 5's find-then-replace loop. */
  datatype Step = Regex(rule: Rule) | UnsignedLoop

  /** The steps in the order the converter applies them. */
  const Steps: seq<Step> := [
    Regex(Backticks), Regex(AutoIncrement), Regex(IntWord), Regex(IntPrecision),
    Regex(SizedText), UnsignedLoop, Regex(TinyintOne), Regex(Datetime),
    Regex(Ifnull), Regex(Limit), Regex(Now), Regex(SubstringIndex),
    Regex(GroupConcat), Regex(TrueWord), Regex(FalseWord), Regex(Regexp),
    Regex(Engine), Regex(DefaultCharset), Regex(CommentSpace)
  ]

  function Apply(st: Step, s: string): string {
    match st
    case Regex(r) => Sub(r, s)
    case UnsignedLoop => Unsigned(s)
  }

  /** Apply `steps` left to right, each to the previous one's result. */
  function Run(steps: seq<Step>, s: string): string
    decreases |steps|
  {
    if steps == [] then s else Run(steps[1..], Apply(steps[0], s))
  }

  /** The text the converter writes out for the text `s` it read. */
  function Rewrite(s: string): string {
    Run(Steps, s)
  }

  /** Running two step lists one after the other is running their concatenation. */
  lemma {:induction false} RunAppend(a: seq<Step>, b: seq<Step>, s: string)
    ensures Run(a + b, s) == Run(b, Run(a, s))
    decreases |a|
  {
    if a == [] {
      assert a + b == b;
    } else {
      var t := Apply(a[0], s);
      assert (a + b)[0] == a[0];
      assert (a + b)[1..] == a[1..] + b;
      RunCons(a + b, s);
      RunCons(a, s);
      RunAppend(a[1..], b, t);
    }
  }

  lemma RunCons(steps: seq<Step>, s: string)
    requires steps != []
    ensures Run(steps, s) == Run(steps[1..], Apply(steps[0], s))
  {
  }

  /**
   Rule 5's loop runs on the output of steps 1 to 4, and its result is what
   steps 6 to 16 receive.
   */
  lemma UnsignedSeesEarlierSteps(s: string)
    ensures Rewrite(s) == Run(Steps[6..], Unsigned(Run(Steps[..5], s)))
  {
    RunAround(Steps, 5, s);
  }

  /** The pipeline seen around its `n`-th step. */
  lemma RunAround(steps: seq<Step>, n: nat, s: string)
    requires n < |steps|
    ensures Run(steps, s) == Run(steps[n + 1..], Apply(steps[n], Run(steps[..n], s)))
  {
    var rest := [steps[n]] + steps[n + 1..];
    assert steps == steps[..n] + rest;
    RunAppend(steps[..n], rest, s);
    RunCons(rest, Run(steps[..n], s));
    assert rest[1..] == steps[n + 1..];
  }

  /** The literal a step needs to find before it can change anything. */
  function Trigger(st: Step): string {
    match st
    case Regex(r) => Anchor(r)
    case UnsignedLoop => Anchor(UnsignedColumn)
  }

  /** `kw` occurs nowhere in `s`, compared case-insensitively. */
  ghost predicate Absent(s: string, kw: string) {
    forall k :: !KeywordAt(s, k, kw)
  }

  /** A step whose trigger does not occur leaves the text alone. */
  lemma ApplyAbsent(st: Step, s: string)
    requires Absent(s, Trigger(st))
    ensures Apply(st, s) == s
  {
    match st
    case Regex(r) => AnchorAbsentIdentity(r, s);
    case UnsignedLoop => UnsignedAbsentIdentity(s);
  }

  /** Steps none of whose triggers occur leave the text alone, in any number. */
  lemma {:induction false} RunAbsent(steps: seq<Step>, s: string)
    requires forall i :: 0 <= i < |steps| ==> Absent(s, Trigger(steps[i]))
    ensures Run(steps, s) == s
    decreases |steps|
  {
    if steps != [] {
      ApplyAbsent(steps[0], s);
      RunAbsent(steps[1..], s);
    }
  }

  /** A text that contains none of the literals the rules look for comes out as it went in. */
  lemma RewriteIdentity(s: string)
    requires forall i :: 0 <= i < |Steps| ==> Absent(s, Trigger(Steps[i]))
    ensures Rewrite(s) == s
  {
    RunAbsent(Steps, s);
  }

  predicate IsLetter(c: char) {
    'a' <= c <= 'z' || 'A' <= c <= 'Z'
  }

  /** Every trigger starts with a letter, except the backtick of rule 1 and the `--` of rule 16. */
  lemma TriggerStart(st: Step)
    ensures |Trigger(st)| > 0
    ensures IsLetter(Trigger(st)[0]) || Trigger(st) == "`" || Trigger(st) == "--"
  {
  }

  /** A letter-free text with no backtick and no `--` triggers no step. */
  lemma PlainAbsent(s: string, st: Step)
    requires forall k :: 0 <= k < |s| ==> !IsLetter(s[k]) && s[k] != '`'
    requires forall k :: 0 <= k < |s| - 1 ==> !(s[k] == '-' && s[k + 1] == '-')
    ensures Absent(s, Trigger(st))
  {
    var a := Trigger(st);
    TriggerStart(st);
    forall k | KeywordAt(s, k, a) ensures false {
      KeywordChar(s, k, a, 0);
      if a == "--" {
        KeywordChar(s, k, a, 1);
      }
    }
  }

  /** A text without letters, backticks or `--` comes out of the conversion unchanged. */
  lemma RewritePlain(s: string)
    requires forall k :: 0 <= k < |s| ==> !IsLetter(s[k]) && s[k] != '`'
    requires forall k :: 0 <= k < |s| - 1 ==> !(s[k] == '-' && s[k + 1] == '-')
    ensures Rewrite(s) == s
  {
    forall i | 0 <= i < |Steps| ensures Absent(s, Trigger(Steps[i])) {
      PlainAbsent(s, Steps[i]);
    }
    RewriteIdentity(s);
  }
}
