# MySQL to PostgreSQL rewrite, modelled in Dafny

`postgrace.py` converts a MySQL script into PostgreSQL. It reads the whole
file as one string and sends it through a fixed list of regular-expression
rewrites (steps 1 to 16; steps 3, 13 and 15 have two substitutions each).
Each step gets the text the previous step produced. It then writes the result out.

This project models that rewrite, `convert_mysql_to_postgresql`, on texts
seen as `seq<char>`:

- `Chars` holds the character classes, ASCII case folding, greedy runs
  (`RunEnd`) and Python's `str.strip` (`Strip`).
- `Patterns` holds one matcher per regular expression (`BacktickAt`,
  `IntWordAt`, ..., `CommentAt`). Each returns the `Hit` at a position: the
  length matched and the replacement text. Each follows its pattern's greedy
  and lazy choices. `Rule` names the nineteen substitutions, and `Anchor`
  gives the literal every match of a rule contains.
- `PatternFacts` states the group structure of the longer patterns (rules 5,
  8, 9 and 11) without reference to how the matcher searches. For rule 5
  this includes the split the quantifiers choose: group 1's whitespace gives
  back only as much as the lazy name needs to reach the tail, and
  `UnsignedShapeUnique` shows that the shape fixes the split and the end.
- `Substitute` is `re.sub` and `re.finditer` for non-empty matches: a
  leftmost scan that emits the replacement where the rule matches and resumes
  after the match, and copies one character where it does not.
- `UnsignedStep` is rule 5. It collects the matches with `finditer` on the
  text before the step, then replaces every occurrence of each matched text
  with `str.replace`.
- `KeywordSteps` treats the one-keyword rules (2, 3a, 4, 6, 7 and 10) as
  instances of one keyword pattern. After each of them the keyword is gone
  from the output, so each is idempotent.
- `StepFacts` holds properties of particular steps. Rules 1 and 16 keep the
  length. Rule 16 turns each whitespace character that
  directly follows `--` into a space and changes nothing else. Rule 1 changes only backticks, each into `"`, and each
  changed backtick has a partner backtick on its line with no backtick
  between them. Rules 13 and 16 are
  idempotent. Rule 3a replaces exactly the whole-word `INT`s, and after it
  rule 3b never fires.
- `Samples` holds concrete inputs that pin down behaviour the code has but a
  reader might not expect. Among them: rule 14 is not idempotent, and rule 5's
  `str.replace` also rewrites copies of a match inside a later line.
- `Pipeline` composes the steps in source order into `Rewrite` and proves
  that steps which find nothing leave the text alone.

Where the code does something its step comments do not suggest, the model
follows the code:

- **Rule 3.** `INT(11)` becomes `INTEGER(11)`: rule 3a already matches the
  `INT`, because `(` is not a word character, and keeps the width. Rule 3b
  (`\bINT\(\d+\)`, which would drop the width) therefore never fires
  (`StepFacts.IntPrecisionAfterIntWord`).
- **Rule 5.** Group 1 (the word before the type) is used as the type and
  group 2 (the type) as the column name. `age INTEGER UNSIGNED` becomes
  `age INTEGER CHECK (INTEGER >= 0)`. `str.replace` replaces every
  occurrence of the matched text, not only the first:
  `a b UNSIGNED` on one line and `q a b UNSIGNED` on the next both become
  `... b CHECK (b >= 0)`, because the second line contains the first match's text.
- **Rule 12.** The greedy `[^)]+` runs to the first `)`, so the optional
  `SEPARATOR` group always matches empty. The separator is therefore always
  `','`, and a `SEPARATOR` clause stays inside the first argument.
- **Rule 15.** `ENGINE=InnoDB DEFAULT CHARSET=utf8` becomes a single space:
  only the two clauses are removed, and the space between them stays.

## Model

| member | source | states |
|---|---|---|
| Chars.Strip | postgrace.py:40-41 | `str.strip()`: the result neither starts nor ends with whitespace, is a slice of the input after its leading whitespace, and only whitespace follows it; all-whitespace text strips to empty |
| Patterns.BacktickAt | postgrace.py:24 | a hit is a backtick, the shortest stretch without a backtick or newline, and a closing backtick, replaced by the stretch in double quotes; there is no hit only when no closing backtick is on the same line |
| Patterns.IntPrecisionAt | postgrace.py:32 | a hit is a whole-word `INT`, `(`, at least one digit, and `)`, replaced by `INTEGER` |
| PatternFacts.IntPrecisionMisses | postgrace.py:32 | rule 3b misses only where there is no `INT(` after a word boundary, or no digit run after it is closed by `)` |
| Patterns.AutoIncrementAt | postgrace.py:28 | no contract of its own; see `KeywordSteps.AutoIncrementLeavesNone` |
| Patterns.IntWordAt | postgrace.py:31 | no contract of its own; see `StepFacts.IntWordSpans` and `KeywordSteps.IntWordLeavesNoInt` |
| Patterns.SizedTextAt | postgrace.py:35 | no contract of its own; see `KeywordSteps.SizedTextLeavesNone` |
| Patterns.TinyintOneAt | postgrace.py:47 | no contract of its own; see `KeywordSteps.TinyintOneLeavesNone` |
| Patterns.DatetimeAt | postgrace.py:50 | no contract of its own; see `KeywordSteps.DatetimeLeavesNone` |
| Patterns.NowAt | postgrace.py:60 | no contract of its own; see `KeywordSteps.NowLeavesNone` |
| Patterns.LowerWordAt | postgrace.py:72-73 | no contract of its own; see `StepFacts.TrueIsLowerWords` and `StepFacts.FalseIsLowerWords` |
| Patterns.RegexpAt | postgrace.py:76 | no contract of its own; see `Samples.RegexpNotIdempotent` |
| Patterns.CommentAt | postgrace.py:83 | no contract of its own; see `StepFacts.CommentSpaced`, `StepFacts.CommentOnlyRespaces` and `StepFacts.CommentIsSpaceAfterMarks` |
| Patterns.UnsignedAt | postgrace.py:38 | no contract of its own; see `PatternFacts.UnsignedMatchShape` for its hits and `PatternFacts.UnsignedMisses` for when it misses |
| Patterns.UnsignedSplit | postgrace.py:38 | where groups 2 and 3 of rule 5 split: the name starts after at least one whitespace character of group 1 and no later than the end of that whitespace, at the latest such place from which a lazy name reaches a tail, and ends at the first place the `\s+UNSIGNED` tail can start, crossing no newline; there is no split exactly when no start in the whitespace reaches a tail |
| PatternFacts.LazyNameIs | postgrace.py:38 | the first place the tail can start, with no newline before it, is the end the lazy group takes |
| PatternFacts.UnsignedMatchShape | postgrace.py:38-43 | a rule 5 hit is a word, whitespace, the lazy name, whitespace and `UNSIGNED`, where the name starts at the latest point of the whitespace from which a newline-free stretch reaches the tail; the replacement is built from the word and the stripped name |
| PatternFacts.UnsignedShapeUnique | postgrace.py:38 | two rule 5 shapes at the same position have the same word end, name start, name end and match end |
| PatternFacts.LazyNameMisses | postgrace.py:38 | when the lazy name finds no tail from a start, no later newline-free stretch from that start reaches a tail |
| PatternFacts.UnsignedMisses | postgrace.py:38 | rule 5 misses at a position exactly when it holds no word character, or when no name start after at least one character of the whitespace following the word run reaches a tail (so also when no whitespace follows) |
| PatternFacts.UnsignedEndsWithKeyword | postgrace.py:38 | every rule 5 hit ends with the eight characters `UNSIGNED` |
| Patterns.IfnullAt | postgrace.py:54 | no contract of its own; see `PatternFacts.IfnullGroups`, `PatternFacts.IfnullRenamesOnly` and `PatternFacts.IfnullMisses` |
| PatternFacts.IfnullGroups | postgrace.py:54 | a rule 8 hit starts with `IFNULL(`; its first group runs to the first comma, its second to the first `)` after that comma; neither crosses a newline |
| PatternFacts.IfnullRenamesOnly | postgrace.py:54 | rule 8 renames `IFNULL` to `COALESCE` and keeps the argument text verbatim |
| PatternFacts.IfnullMisses | postgrace.py:54 | rule 8 misses only where there is no `IFNULL(`, or no comma followed by a `)` on the same line |
| Patterns.LimitAt | postgrace.py:57 | no contract of its own; see `Patterns.LimitSplit` and `PatternFacts.LimitGroups` |
| Patterns.LimitSplit | postgrace.py:57 | a rule 9 hit is `LIMIT`, whitespace, the offset digits, optional whitespace, a comma, optional whitespace and the count digits; the count is not followed by another digit |
| PatternFacts.LimitGroups | postgrace.py:57 | the replacement is `LIMIT count OFFSET offset`, with the two digit runs taken from the text |
| Patterns.SubstringIndexAt | postgrace.py:63-64 | no contract of its own; see `Patterns.SubstringIndexSplit` and `PatternFacts.SubstringIndexGroups` |
| Patterns.SubstringIndexSplit | postgrace.py:63-64 | a rule 11 hit has three comma-separated groups: the first and second contain no comma, the third is digits closed by `)` |
| PatternFacts.SubstringIndexGroups | postgrace.py:63-64 | the replacement is `split_part(` followed by the three groups, in order, separated by `, ` |
| Patterns.GroupConcatAt | postgrace.py:67-69 | a rule 12 hit runs from `GROUP_CONCAT(` to the first `)`; the replacement is `STRING_AGG(` + the whole argument + `, ',')`; there is no hit only when no non-empty argument is closed by `)` |
| Patterns.TableOptionAt | postgrace.py:79-80 | a rule 15 hit is the keyword, `=` with optional whitespace around it, and a maximal word; it is replaced by nothing |
| Substitute.Sub | postgrace.py:24-83 | no contract of its own; `re.sub` of one rule, that is `SubFrom` from position 0 over the rule's match table |
| Substitute.SubFrom | postgrace.py:24-83 | no contract of its own; see `Substitute.SubIsSplice`, `Substitute.SubPrefixCopied` and `Substitute.SubOnce` |
| Substitute.FindAll | postgrace.py:39 | no contract of its own; `re.finditer`, whose spans are described by `Substitute.FindFromCovers` |
| Substitute.Match | postgrace.py:24-83 | every hit of every rule is non-empty and lies inside the text |
| Substitute.MatchContainsAnchor | postgrace.py:24-83 | every hit of a rule contains the rule's anchor literal, compared case-insensitively |
| Substitute.FindFromCovers | postgrace.py:39 | every position where the rule matches lies inside one of the spans `re.finditer` reports |
| Substitute.PointwiseFrom | postgrace.py:24 | when every hit replaces character for character, the substitution keeps the length and changes characters only as the hits allow |
| Substitute.SubIsSplice | postgrace.py:38-44 | `re.sub` gives the same text as replacing, in order, the spans that `finditer` reports |
| Substitute.SelfHitsIdentity | postgrace.py:24-83 | a substitution whose every hit puts back the text it matched changes nothing |
| Substitute.SubPrefixCopied | postgrace.py:24-83 | where no rule hit starts, the substitution copies the text |
| Substitute.SubOnce | postgrace.py:24-83 | a text with exactly one hit has that hit's span replaced and everything else kept |
| Substitute.NoMatchIdentity | postgrace.py:24-83 | a rule that matches nowhere leaves the text unchanged |
| Substitute.AnchorAbsentIdentity | postgrace.py:24-83 | a rule whose anchor does not occur leaves the text unchanged |
| UnsignedStep.ReplaceAll | postgrace.py:44 | no contract of its own; see `UnsignedStep.ReplaceSpans` |
| UnsignedStep.ReplaceSpans | postgrace.py:44 | `str.replace` rewrites occurrences of the literal, in order and without overlap, each by the new text, and every occurrence lies inside one of them |
| UnsignedStep.ReplaceOnce | postgrace.py:44 | a literal that occurs once is replaced there and nowhere else |
| UnsignedStep.ReplaceAbsent | postgrace.py:44 | replacing a literal that does not occur changes nothing |
| UnsignedStep.ReplaceSame | postgrace.py:44 | replacing a literal by itself changes nothing |
| UnsignedStep.ReplaceEach | postgrace.py:39-44 | no contract of its own; the loop over the matches, one `str.replace` per match, each on the previous result |
| UnsignedStep.Unsigned | postgrace.py:38-44 | no contract of its own; rule 5 is `ReplaceEach` over `finditer` on the text before the step; see `UnsignedStep.UnsignedAbsentIdentity` and `Samples.UnsignedReplacesCopies` |
| UnsignedStep.UnsignedAbsentIdentity | postgrace.py:38-44 | text without `UNSIGNED` (in any case) is left unchanged by rule 5 |
| KeywordSteps.LeavesNone | postgrace.py:24-83 | after a substitution of a well-formed keyword pattern, no keyword of the pattern matches anywhere in the output, with the output's own word boundaries |
| KeywordSteps.DescribedLeavesNone | postgrace.py:24-83 | a rule whose matcher is a well-formed keyword pattern matches nowhere in its own output |
| KeywordSteps.DescribedIdempotent | postgrace.py:24-83 | a rule whose matcher is a well-formed keyword pattern is idempotent |
| KeywordSteps.AutoIncrementLeavesNone | postgrace.py:28 | after rule 2 neither `AUTO_INCREMENT` nor `AUTOINCREMENT` occurs, in any case |
| KeywordSteps.AutoIncrementIdempotent | postgrace.py:28 | applying rule 2 twice gives the same text as applying it once |
| KeywordSteps.IntWordLeavesNoInt | postgrace.py:31 | after rule 3a there is no whole-word `INT` left |
| KeywordSteps.IntWordIdempotent | postgrace.py:31 | applying rule 3a twice gives the same text as applying it once |
| KeywordSteps.SizedTextLeavesNone | postgrace.py:35 | after rule 4 there is no whole-word `TINYTEXT`, `MEDIUMTEXT` or `LONGTEXT` left |
| KeywordSteps.SizedTextIdempotent | postgrace.py:35 | applying rule 4 twice gives the same text as applying it once |
| KeywordSteps.TinyintOneLeavesNone | postgrace.py:47 | after rule 6 no `TINYINT(1)` follows a word boundary |
| KeywordSteps.TinyintOneIdempotent | postgrace.py:47 | applying rule 6 twice gives the same text as applying it once |
| KeywordSteps.DatetimeLeavesNone | postgrace.py:50 | after rule 7 there is no whole-word `DATETIME` left |
| KeywordSteps.DatetimeIdempotent | postgrace.py:50 | applying rule 7 twice gives the same text as applying it once |
| KeywordSteps.NowLeavesNone | postgrace.py:60 | after rule 10 no `NOW()` follows a word boundary |
| KeywordSteps.NowIdempotent | postgrace.py:60 | applying rule 10 twice gives the same text as applying it once |
| StepFacts.BackticksOnlyRequote | postgrace.py:24 | rule 1 keeps the length, the only change it makes is a backtick turned into `"`, and every changed backtick has another backtick on its line with neither a backtick nor a newline between them |
| StepFacts.IntWordSpans | postgrace.py:31 | the spans rule 3a rewrites are exactly the whole-word `INT`s, each replaced by `INTEGER` |
| StepFacts.IntPrecisionAfterIntWord | postgrace.py:31-32 | rule 3b changes nothing in the output of rule 3a |
| StepFacts.IntWithWidth | postgrace.py:31 | `INT(d)` becomes `INTEGER(d)` for every digit string `d` |
| StepFacts.TinyintUntouched | postgrace.py:31 | rule 3a leaves `TINYINT(1)` alone, since its `INT` does not start a word |
| StepFacts.CommentOnlyRespaces | postgrace.py:83 | rule 16 keeps the length, and the only change it makes is a whitespace character directly after `--` turned into a space |
| StepFacts.CommentIsSpaceAfterMarks | postgrace.py:83 | rule 16 equals putting a space in place of every whitespace character directly after `--` and keeping every other character |
| StepFacts.CommentSpaced | postgrace.py:83 | after rule 16, every whitespace character that followed `--` is a space |
| StepFacts.CommentIdempotent | postgrace.py:83 | applying rule 16 twice gives the same text as applying it once |
| StepFacts.TrueIsLowerWords | postgrace.py:72 | rule 13a equals lower-casing exactly the characters of whole-word `TRUE`s |
| StepFacts.FalseIsLowerWords | postgrace.py:73 | rule 13b equals lower-casing exactly the characters of whole-word `FALSE`s |
| StepFacts.LowerWordsAlike | postgrace.py:72-73 | lower-casing whole words keeps the length, the folded characters and the word characters, both ways |
| StepFacts.AlikeWholeWords | postgrace.py:72-73 | texts that agree up to case have the same whole-word occurrences |
| StepFacts.BooleansIdempotent | postgrace.py:72-73 | applying rules 13a and 13b twice gives the same text as applying them once |
| Samples.LimitSwapsNumbers | postgrace.py:57 | `LIMIT 10, 20` becomes `LIMIT 20 OFFSET 10` |
| Samples.GroupConcatIgnoresSeparator | postgrace.py:67-69 | `GROUP_CONCAT(name SEPARATOR ';')` becomes `STRING_AGG(name SEPARATOR ';', ',')` |
| Samples.UnsignedChecksTypeName | postgrace.py:38-44 | `age INTEGER UNSIGNED` becomes `age INTEGER CHECK (INTEGER >= 0)` |
| Samples.ShortSplitRejected | postgrace.py:38 | on `age  UNSIGNED x UNSIGNED` no rule 5 shape puts the name right after the first of the two spaces, because from after the second space a name reaches the final `UNSIGNED` |
| Samples.UnsignedWhole | postgrace.py:38-44 | when the only rule 5 hit covers the whole text, the result is that hit's replacement |
| Samples.UnsignedReplacesCopies | postgrace.py:38-44 | `a b UNSIGNED` and `q a b UNSIGNED` on two lines both become `... b CHECK (b >= 0)`: the first match's `str.replace` also rewrites its copy inside the second line, so the second match's text is gone when its turn comes |
| Samples.RegexpNotIdempotent | postgrace.py:76 | ` REGEXP REGEXP ` becomes ` ~ REGEXP `, and a second application gives ` ~ ~ ` |
| Samples.TableOptionsLeaveSpace | postgrace.py:79-80 | `ENGINE=InnoDB DEFAULT CHARSET=utf8` becomes a single space |
| Samples.TableOptionIs | postgrace.py:79-80 | `kw=word` with no whitespace around `=` is a rule 15 hit that ends with the word |
| Pipeline.Apply | postgrace.py:24-83 | no contract of its own; one step: `re.sub` of its rule, or rule 5's loop |
| Pipeline.Run | postgrace.py:20-83 | no contract of its own; see `Pipeline.RunAppend`, `Pipeline.RunAround` and `Pipeline.RunAbsent` |
| Pipeline.Rewrite | postgrace.py:20-83 | no contract of its own; the nineteen substitutions in source order; see `Pipeline.UnsignedSeesEarlierSteps`, `Pipeline.RewriteIdentity` and `Pipeline.RewritePlain` |
| Pipeline.RunAppend | postgrace.py:20-83 | running two step lists one after the other is running their concatenation |
| Pipeline.RunAround | postgrace.py:20-83 | the pipeline around its `n`-th step: the steps before it, then the step, then the steps after it |
| Pipeline.UnsignedSeesEarlierSteps | postgrace.py:35-47 | rule 5 runs on the output of steps 1 to 4, and steps 6 to 16 get its result |
| Pipeline.ApplyAbsent | postgrace.py:20-83 | a step whose anchor does not occur leaves the text unchanged |
| Pipeline.RunAbsent | postgrace.py:20-83 | any list of steps whose anchors do not occur leaves the text unchanged |
| Pipeline.RewriteIdentity | postgrace.py:20-83 | a text that contains none of the rules' anchors comes out of the conversion unchanged |
| Pipeline.RewritePlain | postgrace.py:20-83 | a text with no letter, no backtick and no `--` comes out of the conversion unchanged |

## Left out

- Reading the input and writing the output (lines 12-17 and 86-87). The file's text is the parameter of `Pipeline.Rewrite`, and its result is what would be written.
- The `verbose` message, the exception handler and its message (lines 89-94), and the command line (lines 96-117). These are I/O with no effect on the text.
- Python's general regular-expression engine. Each of the nineteen patterns has its own matcher, which makes that pattern's greedy, lazy and backtracking choices explicitly.
- Unicode. `\w`, `\d`, `\s`, `re.IGNORECASE` and the whitespace `str.strip()` removes (`Chars.Strip`, lines 40-41) are restricted to ASCII. On ASCII text they agree with Python's; Python's also cover Unicode letters, digits and whitespace.
- Rule 12's replacement is a Python function. Since its separator group always matches empty, the model writes its fixed result directly.
- Patterns.LimitSplit: no statement of when rule 9 fails to match. Only its hits are described.
- Patterns.SubstringIndexSplit: no statement of when rule 11 fails to match. Only its hits are described.
- Patterns.TableOptionAt: no statement of when rule 15 fails to match. Only its hits are described.
- The one-keyword matchers (`AutoIncrementAt`, `IntWordAt`, `SizedTextAt`, `TinyintOneAt`, `DatetimeAt`, `NowAt`, `LowerWordAt`, `RegexpAt`, `CommentAt`) have no contracts of their own (their rows in the table point to the lemmas about them). Each is a single test of its keyword and boundaries. What rules 2, 3a, 4, 6, 7 and 10 leave behind is stated in `KeywordSteps`; rules 13 and 16 are covered in `StepFacts`, and rule 14 has only `Samples.RegexpNotIdempotent`.
- Idempotence is stated only for rules 2, 3a, 4, 6, 7, 10, 13 and 16. Rule 14 is shown not to be idempotent. It is not stated for the other rules.
- `Samples` lemmas are statements about one fixed input each. They pin down behaviour that the general lemmas leave implicit.
