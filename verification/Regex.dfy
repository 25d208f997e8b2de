/** The part of Go's `regexp` package that the pattern compiler relies on: a parser from
    regular-expression text to syntax trees, and what a tree matches.

    `Invalid` is a text that `regexp.Compile` refuses; `Unsupported` is one that this
    module does not interpret (counted repetition, letter escapes, negated classes,
    inline flags other than a leading `(?i)`). Greedy and lazy repetition give the same
    tree, because the shield only observes whether a match exists. */
module Regex {
  import opened Prelude

  datatype Re =
    | Empty
    | Lit(c: char)
    | Any
    | Class(ranges: seq<(char, char)>)
    | Begin
    | End
    | Cat(left: Re, right: Re)
    | Alt(left: Re, right: Re)
    | Star(body: Re)

  /** A compiled expression: `fold` records a leading `(?i)`. */
  datatype Regexp = Regexp(fold: bool, re: Re)

  // ---------- Meaning ----------

  predicate CharMatches(c: char, fold: bool, x: char) {
    if fold then Lower(c) == Lower(x) else c == x
  }

  predicate InRange(range: (char, char), fold: bool, x: char) {
    || range.0 <= x <= range.1
    || (fold && range.0 <= Lower(x) <= range.1)
    || (fold && 'a' <= x <= 'z' && range.0 <= (x as int - 32) as char <= range.1)
  }

  /** `r` matches exactly the bytes `s[i..j]`; `s` is the whole text, for the anchors.
      `.` does not match a newline, and `$` matches at the end of the text only. */
  predicate Matches(r: Re, fold: bool, s: string, i: nat, j: nat)
    requires i <= j <= |s|
    decreases r, j - i
  {
    match r
    case Empty => i == j
    case Lit(c) => j == i + 1 && CharMatches(c, fold, s[i])
    case Any => j == i + 1 && s[i] != '\n'
    case Class(ranges) => j == i + 1 && exists n | 0 <= n < |ranges| :: InRange(ranges[n], fold, s[i])
    case Begin => i == j == 0
    case End => i == j == |s|
    case Cat(a, b) => exists k | i <= k <= j :: Matches(a, fold, s, i, k) && Matches(b, fold, s, k, j)
    case Alt(a, b) => Matches(a, fold, s, i, j) || Matches(b, fold, s, i, j)
    case Star(a) =>
      i == j || exists k | i < k <= j :: Matches(a, fold, s, i, k) && Matches(r, fold, s, k, j)
  }

  /** `(*Regexp).MatchString`: some substring matches. */
  predicate MatchString(re: Regexp, s: string) {
    exists i, j | 0 <= i <= j <= |s| :: Matches(re.re, re.fold, s, i, j)
  }

  // ---------- Parsing ----------

  datatype Parsed<+T> =
    | Ok(value: T, rest: string)
    | Invalid
    | Unsupported

  const META: string := ".+?^$()[]{}|\\"

  predicate IsAlnum(c: char) {
    'a' <= c <= 'z' || 'A' <= c <= 'Z' || '0' <= c <= '9'
  }

  predicate IsRepeatOp(c: char) {
    c == '*' || c == '+' || c == '?'
  }

  /** The text does not go on with a repetition operator or a brace. */
  predicate NoRepeat(t: string) {
    t == "" || (!IsRepeatOp(t[0]) && t[0] != '{')
  }

  function Repeated(op: char, a: Re): Re
    requires IsRepeatOp(op)
  {
    if op == '*' then Star(a) else if op == '+' then Cat(a, Star(a)) else Alt(a, Empty)
  }

  /** The repetition operator after an atom, if any. A second operator straight after one
      (other than the lazy mark) is an error, as in Perl syntax. */
  function ParsePostfix(a: Re, t: string): (p: Parsed<Re>)
    ensures p.Ok? ==> |p.rest| <= |t|
  {
    if NoRepeat(t) then Ok(a, t)
    else if t[0] == '{' then Unsupported
    else
      var after := if |t| >= 2 && t[1] == '?' then t[2..] else t[1..];
      if NoRepeat(after) then Ok(Repeated(t[0], a), after)
      else if after[0] == '{' then Unsupported
      else Invalid
  }

  /** The items of a bracket class up to its `]`. */
  function ParseClass(t: string, first: bool): (p: Parsed<seq<(char, char)>>)
    ensures p.Ok? ==> |p.rest| < |t|
    decreases |t|
  {
    if t == "" then Invalid
    else if t[0] == ']' && !first then Ok([], t[1..])
    else if t[0] == '[' || t[0] == '\\' || (first && t[0] == '^') then Unsupported
    else if |t| >= 3 && t[1] == '-' && t[2] != ']' then
      if t[2] == '[' || t[2] == '\\' then Unsupported
      else if t[2] < t[0] then Invalid
      else match ParseClass(t[3..], false)
           case Ok(more, rest) => Ok([(t[0], t[2])] + more, rest)
           case Invalid => Invalid
           case Unsupported => Unsupported
    else
      match ParseClass(t[1..], false)
      case Ok(more, rest) => Ok([(t[0], t[0])] + more, rest)
      case Invalid => Invalid
      case Unsupported => Unsupported
  }

  function ParseAtom(t: string): (p: Parsed<Re>)
    requires t != ""
    ensures p.Ok? ==> |p.rest| < |t|
    decreases |t|, 0
  {
    match t[0]
    case '(' =>
      if |t| >= 2 && t[1] == '?' then Unsupported
      else (match ParseAlt(t[1..])
            case Ok(r, rest) => if rest != "" && rest[0] == ')' then Ok(r, rest[1..]) else Invalid
            case Invalid => Invalid
            case Unsupported => Unsupported)
    case '[' =>
      (match ParseClass(t[1..], true)
       case Ok(ranges, rest) => Ok(Class(ranges), rest)
       case Invalid => Invalid
       case Unsupported => Unsupported)
    case '.' => Ok(Any, t[1..])
    case '^' => Ok(Begin, t[1..])
    case '$' => Ok(End, t[1..])
    case '\\' =>
      if |t| == 1 then Invalid
      else if IsAlnum(t[1]) then Unsupported
      else Ok(Lit(t[1]), t[2..])
    case '{' => Unsupported
    case c => if IsRepeatOp(c) || c == ')' || c == '|' then Invalid else Ok(Lit(c), t[1..])
  }

  function ParseCat(t: string): (p: Parsed<Re>)
    ensures p.Ok? ==> |p.rest| <= |t|
    decreases |t|, 1
  {
    if t == "" || t[0] == ')' || t[0] == '|' then Ok(Empty, t)
    else match ParseAtom(t)
         case Ok(a, rest) =>
           (match ParsePostfix(a, rest)
            case Ok(b, rest') =>
              (match ParseCat(rest')
               case Ok(c, rest'') => Ok(Cat(b, c), rest'')
               case Invalid => Invalid
               case Unsupported => Unsupported)
            case Invalid => Invalid
            case Unsupported => Unsupported)
         case Invalid => Invalid
         case Unsupported => Unsupported
  }

  function ParseAlt(t: string): (p: Parsed<Re>)
    ensures p.Ok? ==> |p.rest| <= |t|
    decreases |t|, 2
  {
    match ParseCat(t)
    case Ok(a, rest) =>
      if rest != "" && rest[0] == '|' then
        (match ParseAlt(rest[1..])
         case Ok(b, rest') => Ok(Alt(a, b), rest')
         case Invalid => Invalid
         case Unsupported => Unsupported)
      else Ok(a, rest)
    case Invalid => Invalid
    case Unsupported => Unsupported
  }

  datatype CompileError = Malformed | Uninterpreted

  const FOLD_FLAG: string := "(?i)"

  /** `regexp.Compile`. */
  function Compile(text: string): Result<Regexp, CompileError> {
    var fold := HasPrefix(text, FOLD_FLAG);
    match ParseAlt(if fold then text[4..] else text)
    case Ok(r, rest) => if rest == "" then Success(Regexp(fold, r)) else Failure(Malformed)
    case Invalid => Failure(Malformed)
    case Unsupported => Failure(Uninterpreted)
  }

  // ---------- Facts about matching ----------

  predicate NoNewline(s: string) {
    '\n' !in s
  }

  /** `.*` matches exactly the newline-free runs. */
  lemma {:induction false} StarAny(fold: bool, s: string, i: nat, j: nat)
    requires i <= j <= |s|
    ensures Matches(Star(Any), fold, s, i, j) <==> NoNewline(s[i..j])
    decreases j - i
  {
    if i < j {
      StarAny(fold, s, i + 1, j);
      assert s[i..j] == [s[i]] + s[i + 1..j];
      assert Matches(Any, fold, s, i, i + 1) <==> s[i] != '\n';
      forall k | i < k <= j && Matches(Any, fold, s, i, k)
        ensures k == i + 1
      {
      }
    }
  }
}
