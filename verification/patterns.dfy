/**
 One matcher per regular expression of the rewrite in postgrace.py.

 Each matcher answers the question Python's regex engine answers when a
 search reaches position `i`: does the pattern match starting exactly at `i`,
 and if so how long is the match and what text replaces it. Greedy and lazy
 quantifiers and the engine's backtracking are worked out per pattern, so no
 general regex engine is needed.
 */
module Patterns {
  import opened Chars

  /** A match of `len` characters whose replacement text is `out`. */
  datatype Hit = Hit(len: nat, out: string)

  /** Every `re.sub`/`re.finditer` pattern of the rewrite, in source order. */
  datatype Rule =
    | Backticks        // 1:  `(.*?)`                      -> "\1"
    | AutoIncrement    // 2:  AUTO_?INCREMENT               -> SERIAL
    | IntWord          // 3a: \bINT\b(?!\w)                 -> INTEGER
    | IntPrecision     // 3b: \bINT\(\d+\)                  -> INTEGER
    | SizedText        // 4:  \b(TINY|MEDIUM|LONG)TEXT\b    -> TEXT
    | UnsignedColumn   // 5:  (\w+\s+)(.*?)(\s+UNSIGNED)    -> CHECK constraint
    | TinyintOne       // 6:  \bTINYINT\(1\)                -> BOOLEAN
    | Datetime         // 7:  \bDATETIME\b                  -> TIMESTAMP
    | Ifnull           // 8:  IFNULL\((.*?),(.*?)\)         -> COALESCE(\1,\2)
    | Limit            // 9:  LIMIT\s+(\d+)\s*,\s*(\d+)     -> LIMIT \2 OFFSET \1
    | Now              // 10: \bNOW\(\)                     -> CURRENT_TIMESTAMP
    | SubstringIndex   // 11: SUBSTRING_INDEX(...)          -> split_part(\1, \2, \3)
    | GroupConcat      // 12: GROUP_CONCAT(...)             -> STRING_AGG(\1, 'sep')
    | TrueWord         // 13a: \bTRUE\b                     -> true
    | FalseWord        // 13b: \bFALSE\b                    -> false
    | Regexp           // 14: \sREGEXP\s                    -> " ~ "
    | Engine           // 15a: ENGINE\s*=\s*\w+             -> ""
    | DefaultCharset   // 15b: DEFAULT CHARSET\s*=\s*\w+    -> ""
    | CommentSpace     // 16: --\s                          -> "-- "

  /** A literal that every match of the rule contains (compared case-insensitively). */
  function Anchor(r: Rule): string {
    match r
    case Backticks => "`"
    case AutoIncrement => "AUTO"
    case IntWord => "INT"
    case IntPrecision => "INT("
    case SizedText => "TEXT"
    case UnsignedColumn => "UNSIGNED"
    case TinyintOne => "TINYINT(1)"
    case Datetime => "DATETIME"
    case Ifnull => "IFNULL("
    case Limit => "LIMIT"
    case Now => "NOW()"
    case SubstringIndex => "SUBSTRING_INDEX("
    case GroupConcat => "GROUP_CONCAT("
    case TrueWord => "TRUE"
    case FalseWord => "FALSE"
    case Regexp => "REGEXP"
    case Engine => "ENGINE"
    case DefaultCharset => "DEFAULT CHARSET"
    case CommentSpace => "--"
  }

  // ---------------------------------------------------------------------------
  // Rule 1

  /** `` `(.*?)` ``: a backtick, the shortest run of non-newline characters, a backtick. */
  function BacktickAt(s: string, i: nat): (h: Option<Hit>)
    requires i < |s|
    ensures h.Some? ==>
              var j := i + h.value.len - 1;
              i < j < |s| && s[i] == '`' && s[j] == '`'
              && (forall k :: i < k < j ==> s[k] != '`' && s[k] != '\n')
              && h.value.out == ['"'] + s[i + 1..j] + ['"']
    ensures h.None? ==>
              s[i] != '`' || forall k :: i < k < LineEnd(s, i + 1) ==> s[k] != '`'
  {
    if s[i] != '`' then None
    else
      match First(s, i + 1, LineEnd(s, i + 1), '`')
      case None => None
      case Some(j) => Some(Hit(j + 1 - i, ['"'] + s[i + 1..j] + ['"']))
  }

  // ---------------------------------------------------------------------------
  // Rules 2, 3, 4, 6, 7, 10, 13: keyword rules

  /** `AUTO_?INCREMENT`: the optional underscore is tried first. */
  function AutoIncrementAt(s: string, i: nat): Option<Hit> {
    if KeywordAt(s, i, "AUTO_INCREMENT") then Some(Hit(14, "SERIAL"))
    else if KeywordAt(s, i, "AUTOINCREMENT") then Some(Hit(13, "SERIAL"))
    else None
  }

  /** `\bINT\b(?!\w)`: the look-ahead repeats what the second `\b` already demands. */
  function IntWordAt(s: string, i: nat): Option<Hit> {
    if WholeWordAt(s, i, "INT") then Some(Hit(3, "INTEGER")) else None
  }

  /** `\bINT\(\d+\)`: the digit run is greedy and must be closed by `)`. */
  function IntPrecisionAt(s: string, i: nat): (h: Option<Hit>)
    requires i < |s|
    ensures h.Some? ==>
              var e := i + h.value.len - 1;
              i + 4 < e < |s| && WholeWordAt(s, i, "INT") && s[i + 3] == '('
              && AllIn(s[i + 4..e], Digit) && s[e] == ')' && h.value.out == "INTEGER"
  {
    if BoundaryBefore(s, i) && KeywordAt(s, i, "INT(") then
      var e := RunEnd(s, i + 4, Digit);
      KeywordChar(s, i, "INT(", 3);
      KeywordPrefix(s, i, "INT(", 3);
      assert "INT("[..3] == "INT";
      if i + 4 < e < |s| && s[e] == ')' then Some(Hit(e + 1 - i, "INTEGER"))
      else None
    else None
  }

  /** `\b(TINY|MEDIUM|LONG)TEXT\b`. */
  function SizedTextAt(s: string, i: nat): Option<Hit> {
    var p :=
      if KeywordAt(s, i, "TINY") then 4
      else if KeywordAt(s, i, "MEDIUM") then 6
      else if KeywordAt(s, i, "LONG") then 4
      else 0;
    if p > 0 && BoundaryBefore(s, i) && KeywordAt(s, i + p, "TEXT") && BoundaryAfter(s, i + p + 4)
    then Some(Hit(p + 4, "TEXT"))
    else None
  }

  /** `\bTINYINT\(1\)`. */
  function TinyintOneAt(s: string, i: nat): Option<Hit> {
    if BoundaryBefore(s, i) && KeywordAt(s, i, "TINYINT(1)") then Some(Hit(10, "BOOLEAN")) else None
  }

  /** `\bDATETIME\b`. */
  function DatetimeAt(s: string, i: nat): Option<Hit> {
    if WholeWordAt(s, i, "DATETIME") then Some(Hit(8, "TIMESTAMP")) else None
  }

  /** `\bNOW\(\)`. */
  function NowAt(s: string, i: nat): Option<Hit> {
    if BoundaryBefore(s, i) && KeywordAt(s, i, "NOW()") then Some(Hit(5, "CURRENT_TIMESTAMP")) else None
  }

  /** `\bTRUE\b` and `\bFALSE\b`: the replacement is the keyword in lower case. */
  function LowerWordAt(s: string, i: nat, kw: string): Option<Hit> {
    if WholeWordAt(s, i, kw) then Some(Hit(|kw|, LowerAll(kw))) else None
  }

  function LowerAll(x: string): (y: string)
    ensures |y| == |x|
    ensures forall j :: 0 <= j < |x| ==> y[j] == Lower(x[j])
  {
    if x == [] then [] else [Lower(x[0])] + LowerAll(x[1..])
  }

  // ---------------------------------------------------------------------------
  // Rule 5

  /** The replacement text rule 5 builds from its two stripped groups. */
  function CheckConstraint(columnType: string, columnName: string): string {
    columnType + " " + columnName + " CHECK (" + columnName + " >= 0)"
  }

  /** `(\s+UNSIGNED)` can start at `p`: whitespace, then the keyword after the whole whitespace run. */
  predicate TailAt(s: string, p: nat) {
    p < |s| && IsSpace(s[p]) && KeywordAt(s, RunEnd(s, p, Space), "UNSIGNED")
  }

  /** The lazy `(.*?)`: the first position from `p` on where the tail can start, without crossing a newline. */
  function LazyName(s: string, p: nat): (n: Option<nat>)
    requires p <= |s|
    ensures n.Some? ==> p <= n.value < |s| && TailAt(s, n.value)
    ensures n.Some? ==> forall k :: p <= k < n.value ==> s[k] != '\n'
    ensures n.Some? ==> forall k {:trigger TailAt(s, k)} :: p <= k < n.value ==> !TailAt(s, k)
    decreases |s| - p
  {
    if p == |s| then None
    else if TailAt(s, p) then Some(p)
    else if s[p] == '\n' then None
    else LazyName(s, p + 1)
  }

  /**
   The backtracking of `(\w+\s+)(.*?)`, given the maximal word run ending at
   `a`: the whitespace run `[a, gs)` gives back one character at a time
   (longest first) until the lazy name starting at `gs` finds a tail. The
   result is where the name group starts and ends.
   */
  function UnsignedSplit(s: string, a: nat, gs: nat): (r: Option<(nat, nat)>)
    requires a < gs <= |s|
    ensures r.Some? ==> a < r.value.0 <= gs && r.value.0 <= r.value.1 < |s| && TailAt(s, r.value.1)
    ensures r.Some? ==> forall k :: r.value.0 <= k < r.value.1 ==> s[k] != '\n'
    ensures r.Some? ==> forall k {:trigger TailAt(s, k)} :: r.value.0 <= k < r.value.1 ==> !TailAt(s, k)
    ensures r.Some? ==> LazyName(s, r.value.0) == Some(r.value.1)
    ensures r.Some? ==> NoNameIn(s, r.value.0, gs)
    ensures r.None? <==> NoNameIn(s, a, gs)
    decreases gs
  {
    match LazyName(s, gs)
    case Some(p) => Some((gs, p))
    case None =>
      NoNameInStep(s, a, gs);
      if gs - 1 > a then
        NoNameInStep(s, gs - 1, gs);
        UnsignedSplit(s, a, gs - 1)
      else None
  }

  /** The lazy name can start at no position in `(a, gs]`. */
  ghost predicate NoNameIn(s: string, a: nat, gs: nat)
    requires gs <= |s|
  {
    forall g :: a < g <= gs ==> LazyName(s, g).None?
  }

  lemma NoNameInStep(s: string, a: nat, gs: nat)
    requires a < gs <= |s|
    ensures NoNameIn(s, a, gs) <==> NoNameIn(s, a, gs - 1) && LazyName(s, gs).None?
  {
  }

  /** `(\w+\s+)(.*?)(\s+UNSIGNED)` at `i`; the groups are stripped and group 1 becomes the type. */
  function UnsignedAt(s: string, i: nat): Option<Hit>
    requires i < |s|
  {
    if !IsWord(s[i]) then None
    else
      var a := RunEnd(s, i, Word);
      var b := RunEnd(s, a, Space);
      if b == a then None
      else
        match UnsignedSplit(s, a, b)
        case None => None
        case Some((g, p)) =>
          Some(Hit(RunEnd(s, p, Space) + 8 - i, CheckConstraint(Strip(s[i..g]), Strip(s[g..p]))))
  }

  // ---------------------------------------------------------------------------
  // Rules 8, 9, 11, 12: function-call rules

  /** `IFNULL\((.*?),(.*?)\)`: both groups are lazy and stop at the end of the line. */
  function IfnullAt(s: string, i: nat): Option<Hit>
    requires i < |s|
  {
    if !KeywordAt(s, i, "IFNULL(") then None
    else
      var e := LineEnd(s, i + 7);
      match First(s, i + 7, e, ',')
      case None => None
      case Some(c) =>
        match First(s, c + 1, e, ')')
        case None => None
        case Some(p) => Some(Hit(p + 1 - i, "COALESCE(" + s[i + 7..c] + "," + s[c + 1..p] + ")"))
  }

  /**
   The span from `i` to `v` has the shape `LIMIT\s+(\d+)\s*,\s*(\d+)`: the
   keyword, whitespace up to `p`, the offset digits `[p, q)`, whitespace up to
   the comma at `c`, whitespace up to `u` and the count digits `[u, v)`.
   */
  predicate LimitShape(s: string, i: nat, p: nat, q: nat, c: nat, u: nat, v: nat) {
    i + 5 < p < q <= c < u < v <= |s| && KeywordAt(s, i, "LIMIT")
    && AllIn(s[i + 5..p], Space) && AllIn(s[p..q], Digit) && AllIn(s[q..c], Space)
    && s[c] == ',' && AllIn(s[c + 1..u], Space) && AllIn(s[u..v], Digit)
  }

  /** Where the runs of rule 9 end; every run is greedy, so each is maximal. */
  function LimitSplit(s: string, i: nat): (r: Option<(nat, nat, nat, nat, nat)>)
    requires i < |s|
    ensures r.Some? ==> LimitShape(s, i, r.value.0, r.value.1, r.value.2, r.value.3, r.value.4)
    ensures r.Some? ==> BoundaryDigit(s, r.value.4)
  {
    if !KeywordAt(s, i, "LIMIT") then None
    else
      var p := RunEnd(s, i + 5, Space);
      var q := RunEnd(s, p, Digit);
      var c := RunEnd(s, q, Space);
      if i + 5 < p < q && c < |s| && s[c] == ',' then
        var u := RunEnd(s, c + 1, Space);
        var v := RunEnd(s, u, Digit);
        if u < v then
          RunSlice(s, i + 5, p, Space);
          RunSlice(s, p, q, Digit);
          RunSlice(s, q, c, Space);
          RunSlice(s, c + 1, u, Space);
          RunSlice(s, u, v, Digit);
          Some((p, q, c, u, v))
        else None
      else None
  }

  /** Rule 9: `LIMIT offset, count` becomes `LIMIT count OFFSET offset`. */
  function LimitAt(s: string, i: nat): Option<Hit>
    requires i < |s|
  {
    match LimitSplit(s, i)
    case None => None
    case Some((p, q, c, u, v)) => Some(Hit(v - i, "LIMIT " + s[u..v] + " OFFSET " + s[p..q]))
  }

  /** No digit at `v`: a greedy `\d+` ending at `v` cannot be extended. */
  predicate BoundaryDigit(s: string, v: nat) {
    v >= |s| || !IsDigit(s[v])
  }

  /**
   The span from `i` to the `)` at `e` has the shape
   `SUBSTRING_INDEX\(([^,]+),\s*([^,]+),\s*(\d+)\)` with the groups
   `[i + 16, c1)`, `[g, c2)` and `[w, e)`; the second group starts on a
   non-space unless it is the single character before the second comma.
   */
  predicate SubstringIndexShape(s: string, i: nat, c1: nat, g: nat, c2: nat, w: nat, e: nat) {
    i + 16 < c1 < g < c2 < w < e < |s| && KeywordAt(s, i, "SUBSTRING_INDEX(")
    && AllIn(s[i + 16..c1], NotComma) && s[c1] == ','
    && AllIn(s[c1 + 1..g], Space)
    && AllIn(s[g..c2], NotComma) && s[c2] == ','
    && (g == c2 - 1 || !IsSpace(s[g]))
    && AllIn(s[c2 + 1..w], Space) && AllIn(s[w..e], Digit) && s[e] == ')'
  }

  /**
   Where the groups of `SUBSTRING_INDEX\(([^,]+),\s*([^,]+),\s*(\d+)\)` lie
   when it matches at `i`. The second group starts after the greedy `\s*`,
   except when only whitespace stands before the next comma: then `\s*` gives
   back one character so the group is not empty.
   */
  function SubstringIndexSplit(s: string, i: nat): (r: Option<(nat, nat, nat, nat, nat)>)
    requires i < |s|
    ensures r.Some? ==> SubstringIndexShape(s, i, r.value.0, r.value.1, r.value.2, r.value.3, r.value.4)
  {
    if !KeywordAt(s, i, "SUBSTRING_INDEX(") then None
    else
      var a := i + 16;
      var c1 := RunEnd(s, a, NotComma);
      if !(a < c1 < |s|) then None
      else
        var sp := RunEnd(s, c1 + 1, Space);
        var c2 := RunEnd(s, c1 + 1, NotComma);
        var g := if sp < c2 then sp else c2 - 1;
        if !(c1 < g < c2 < |s|) then None
        else
          match CountTail(s, c2)
          case None => None
          case Some((w, e)) =>
            RunSlice(s, a, c1, NotComma);
            RunSlice(s, c1 + 1, g, Space);
            RunSlice(s, g, c2, NotComma);
            Some((c1, g, c2, w, e))
  }

  /** `,\s*(\d+)\)` after the comma at `c`: where the count digits lie. */
  function CountTail(s: string, c: nat): (r: Option<(nat, nat)>)
    requires c < |s|
    ensures r.Some? ==> c < r.value.0 < r.value.1 < |s| && s[r.value.1] == ')'
                        && AllIn(s[c + 1..r.value.0], Space) && AllIn(s[r.value.0..r.value.1], Digit)
  {
    var w := RunEnd(s, c + 1, Space);
    var e := RunEnd(s, w, Digit);
    if w < e < |s| && s[e] == ')' then
      RunSlice(s, c + 1, w, Space);
      RunSlice(s, w, e, Digit);
      Some((w, e))
    else None
  }

  /** Rule 11: `SUBSTRING_INDEX(str, delim, count)` becomes `split_part(str, delim, count)`. */
  function SubstringIndexAt(s: string, i: nat): Option<Hit>
    requires i < |s|
  {
    match SubstringIndexSplit(s, i)
    case None => None
    case Some((c1, g, c2, w, e)) =>
      Some(Hit(e + 1 - i, "split_part(" + s[i + 16..c1] + ", " + s[g..c2] + ", " + s[w..e] + ")"))
  }

  /**
   `GROUP_CONCAT\(([^)]+)(?:\s+SEPARATOR\s+'([^']+)')?\)`. The greedy `[^)]+`
   runs to the first `)`, so the optional separator group always matches
   empty and the separator is always `,`.
   */
  function GroupConcatAt(s: string, i: nat): (h: Option<Hit>)
    requires i < |s|
    ensures h.Some? ==>
              var a := i + 13;
              var p := i + h.value.len - 1;
              a < p < |s| && KeywordAt(s, i, "GROUP_CONCAT(") && s[p] == ')'
              && (forall k :: a <= k < p ==> s[k] != ')')
              && h.value.out == "STRING_AGG(" + s[a..p] + ", ',')"
    ensures h.None? ==>
              !KeywordAt(s, i, "GROUP_CONCAT(")
              || (i + 13 < |s| && s[i + 13] == ')')
              || forall k :: i + 13 <= k < |s| ==> s[k] != ')'
  {
    if !KeywordAt(s, i, "GROUP_CONCAT(") then None
    else
      var a := i + 13;
      match First(s, a, |s|, ')')
      case None => None
      case Some(p) =>
        if p == a then None
        else Some(Hit(p + 1 - i, "STRING_AGG(" + s[a..p] + ", ',')"))
  }

  // ---------------------------------------------------------------------------
  // Rules 14, 15, 16

  /** `\sREGEXP\s`: both surrounding whitespace characters are consumed. */
  function RegexpAt(s: string, i: nat): Option<Hit>
    requires i < |s|
  {
    if IsSpace(s[i]) && KeywordAt(s, i + 1, "REGEXP") && i + 7 < |s| && IsSpace(s[i + 7])
    then Some(Hit(8, " ~ "))
    else None
  }

  /** `kw\s*=\s*\w+` removed: `ENGINE = InnoDB`, `DEFAULT CHARSET=utf8`. */
  function TableOptionAt(s: string, i: nat, kw: string): (h: Option<Hit>)
    requires i < |s|
    ensures h.Some? ==>
              var g := i + h.value.len;
              g <= |s| && KeywordAt(s, i, kw) && h.value.out == [] && BoundaryAfter(s, g)
              && exists e, f :: i + |kw| <= e < f < g
                                && AllIn(s[i + |kw|..e], Space) && s[e] == '='
                                && AllIn(s[e + 1..f], Space) && AllIn(s[f..g], Word)
  {
    if !KeywordAt(s, i, kw) then None
    else
      var e := RunEnd(s, i + |kw|, Space);
      if e < |s| && s[e] == '=' then
        var f := RunEnd(s, e + 1, Space);
        var g := RunEnd(s, f, Word);
        if f < g then
          assert AllIn(s[i + |kw|..e], Space) && AllIn(s[e + 1..f], Space) && AllIn(s[f..g], Word);
          Some(Hit(g - i, []))
        else None
      else None
  }

  /** `--\s` becomes `-- `: the whitespace character after the marker turns into a space. */
  function CommentAt(s: string, i: nat): Option<Hit>
    requires i < |s|
  {
    if i + 2 < |s| && s[i] == '-' && s[i + 1] == '-' && IsSpace(s[i + 2]) then Some(Hit(3, "-- ")) else None
  }
}
