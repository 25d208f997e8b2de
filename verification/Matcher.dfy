/** The pattern compiler of internal/rules/matcher.go: from a user's pattern to the text of
    a regular expression, and the proof that the compiled expression means the pattern. */
module Matcher {
  import opened Prelude
  import opened Regex
  import opened Patterns

  // ---------- Emitters ----------

  function CommandText(pattern: string): string {
    FOLD_FLAG + EmitText(CommandGlob, pattern)
  }

  const LABELS: string := "([a-z0-9-]+\\.)*"

  /** The text between the anchors, for a lower-case pattern. */
  function DomainBody(p: string): string {
    if HasPrefix(p, "*.") then LABELS + EmitText(Escaped, p[2..])
    else if '*' in p then EmitText(DomainGlob, p)
    else EmitText(Escaped, p)
  }

  function DomainText(pattern: string): string {
    FOLD_FLAG + ("^" + (DomainBody(ToLower(pattern)) + "$"))
  }

  method EmitGlob(pattern: string) returns (b: string)
    ensures b == EmitText(CommandGlob, pattern)
  {
    b := "";
    for i := 0 to |pattern|
      invariant b == EmitText(CommandGlob, pattern[..i])
    {
      var c := pattern[i];
      EmitTextAppend(CommandGlob, pattern[..i], c);
      assert pattern[..i + 1] == pattern[..i] + [c];
      if c == '*' {
        b := b + ".*?";
      } else if c in META {
        b := b + ['\\'];
        b := b + [c];
      } else {
        b := b + [c];
      }
    }
    assert pattern[..|pattern|] == pattern;
  }

  method GlobToRegex(pattern: string) returns (re: Result<Regexp, CompileError>)
    ensures re == Compile(CommandText(pattern))
  {
    var body := EmitGlob(pattern);
    re := Compile("(?i)" + body);
  }

  method EscapeRegexDomain(s: string) returns (b: string)
    ensures b == EmitText(Escaped, s)
  {
    b := "";
    for i := 0 to |s|
      invariant b == EmitText(Escaped, s[..i])
    {
      EmitTextAppend(Escaped, s[..i], s[i]);
      assert s[..i + 1] == s[..i] + [s[i]];
      if s[i] in META {
        b := b + ['\\'];
        b := b + [s[i]];
      } else {
        b := b + [s[i]];
      }
    }
    assert s[..|s|] == s;
  }

  method EmitWildcards(pattern: string) returns (b: string)
    ensures b == EmitText(DomainGlob, pattern)
  {
    b := "";
    for i := 0 to |pattern|
      invariant b == EmitText(DomainGlob, pattern[..i])
    {
      var c := pattern[i];
      EmitTextAppend(DomainGlob, pattern[..i], c);
      assert pattern[..i + 1] == pattern[..i] + [c];
      if c == '*' {
        b := b + ".*";
      } else if c == '.' {
        b := b + "\\.";
      } else {
        b := b + [c];
      }
    }
    assert pattern[..|pattern|] == pattern;
  }

  /** The three branches, for a lower-case pattern. */
  method EmitDomainBody(pattern: string) returns (b: string)
    ensures b == DomainBody(pattern)
  {
    if HasPrefix(pattern, "*.") {
      var escaped := EscapeRegexDomain(pattern[2..]);
      b := "([a-z0-9-]+\\.)*";
      b := b + escaped;
    } else if '*' in pattern {
      b := EmitWildcards(pattern);
    } else {
      b := EscapeRegexDomain(pattern);
    }
  }

  method DomainToRegex(original: string) returns (re: Result<Regexp, CompileError>)
    ensures re == Compile(DomainText(original))
  {
    var pattern := ToLower(original);
    var b := "(?i)^";
    var body := EmitDomainBody(pattern);
    b := b + body;
    b := b + "$";
    assert b == FOLD_FLAG + ("^" + (body + "$"));
    re := Compile(b);
  }

  // ---------- Command patterns ----------

  /** Some substring of the command is denoted by the glob. */
  ghost predicate CommandDenotes(pattern: string, cmd: string) {
    exists i, j :: 0 <= i <= j <= |cmd| && GlobDenotes(pattern, cmd[i..j])
  }

  lemma CompileFolded(body: string, r: Re)
    requires ParseCat(body) == Ok(r, "")
    ensures Compile(FOLD_FLAG + body) == Success(Regexp(true, r))
  {
    assert (FOLD_FLAG + body)[4..] == body;
  }

  /** Every command pattern compiles, to the tree of its tokens. */
  lemma CommandCompiles(pattern: string)
    ensures Compile(CommandText(pattern)) == Success(Regexp(true, TokensRe(pattern, Empty)))
  {
    EmitParses(CommandGlob, pattern, "", Empty);
    assert EmitText(CommandGlob, pattern) + "" == EmitText(CommandGlob, pattern);
    CompileFolded(EmitText(CommandGlob, pattern), TokensRe(pattern, Empty));
  }

  /** Command compiler correctness: the pattern always compiles, and the expression matches
      a command exactly when some substring is what the glob denotes. */
  lemma CommandCorrect(pattern: string, cmd: string)
    ensures Compile(CommandText(pattern)).Success?
    ensures MatchString(Compile(CommandText(pattern)).value, cmd) <==> CommandDenotes(pattern, cmd)
  {
    CommandCompiles(pattern);
    var re := Compile(CommandText(pattern)).value;
    if MatchString(re, cmd) {
      var i, j :| 0 <= i <= j <= |cmd| && Matches(re.re, true, cmd, i, j);
      TokensMatch(pattern, Empty, cmd, i, j);
      SpansDenotes(pattern, cmd, i, j);
    }
    if CommandDenotes(pattern, cmd) {
      var i, j :| 0 <= i <= j <= |cmd| && GlobDenotes(pattern, cmd[i..j]);
      SpansDenotes(pattern, cmd, i, j);
      assert Matches(Empty, true, cmd, j, j);
      TokensMatch(pattern, Empty, cmd, i, j);
    }
  }

  // ---------- Subdomain labels ----------

  predicate LabelChar(c: char) {
    'a' <= c <= 'z' || '0' <= c <= '9' || c == '-'
  }

  predicate IsLabel(l: string) {
    l != "" && forall i :: 0 <= i < |l| ==> LabelChar(l[i])
  }

  /** The labels, each followed by a dot. */
  function Dotted(labels: seq<string>): string {
    if labels == [] then "" else labels[0] + "." + Dotted(labels[1..])
  }

  ghost predicate IsLabelling(labels: seq<string>, x: string) {
    (forall l :: l in labels ==> IsLabel(l)) && x == Dotted(labels)
  }

  /** `x` is a run of nonempty labels, each ended by a dot. */
  ghost predicate LabelRun(x: string) {
    exists labels :: IsLabelling(labels, x)
  }

  /** The same by one left-to-right scan; `open` says that a label has begun. */
  predicate LabelScan(x: string, open: bool) {
    if x == "" then !open
    else if x[0] == '.' then open && LabelScan(x[1..], false)
    else LabelChar(x[0]) && LabelScan(x[1..], true)
  }

  lemma {:induction false} ScanLabel(l: string, rest: string, open: bool)
    requires forall i :: 0 <= i < |l| ==> LabelChar(l[i])
    requires open || l != ""
    ensures LabelScan(l + "." + rest, open) == LabelScan(rest, false)
    decreases |l|
  {
    var x := l + "." + rest;
    if l == "" {
      assert x[1..] == rest;
    } else {
      assert x[0] == l[0] && LabelChar(l[0]);
      assert x[1..] == l[1..] + "." + rest;
      ScanLabel(l[1..], rest, true);
    }
  }

  /** The scan accepts exactly the runs of labels. */
  lemma {:induction false} LabelScanCorrect(x: string)
    ensures LabelScan(x, false) <==> LabelRun(x)
    decreases |x|
  {
    if LabelRun(x) {
      var labels :| IsLabelling(labels, x);
      DottedScans(labels);
    }
    if LabelScan(x, false) {
      if x == "" {
        assert IsLabelling([], x);
      } else {
        var k := FirstLabel(x, false);
        LabelScanCorrect(x[k + 1..]);
        var rest :| IsLabelling(rest, x[k + 1..]);
        var labels := [x[..k]] + rest;
        assert labels[1..] == rest;
        assert IsLabelling(labels, x);
      }
    }
  }

  lemma {:induction false} DottedScans(labels: seq<string>)
    requires forall l :: l in labels ==> IsLabel(l)
    ensures LabelScan(Dotted(labels), false)
  {
    if labels != [] {
      assert labels[0] in labels;
      DottedScans(labels[1..]);
      ScanLabel(labels[0], Dotted(labels[1..]), false);
    }
  }

  lemma {:induction false} FirstLabel(x: string, open: bool) returns (k: nat)
    requires LabelScan(x, open) && (x != "" || open)
    ensures k < |x| && x[k] == '.' && LabelScan(x[k + 1..], false)
    ensures (forall i :: 0 <= i < k ==> LabelChar(x[i])) && (open || k > 0)
    decreases |x|
  {
    if x[0] == '.' {
      k := 0;
    } else {
      var n := FirstLabel(x[1..], true);
      k := n + 1;
      assert x[1..][n] == x[k];
      assert x[1..][n + 1..] == x[k + 1..];
      assert forall i :: 1 <= i < k ==> x[i] == x[1..][i - 1];
    }
  }

  const LABEL_CLASS := Class([('a', 'z'), ('0', '9'), ('-', '-')])
  const LABEL_RE := Cat(Cat(LABEL_CLASS, Star(LABEL_CLASS)), Cat(Lit('.'), Empty))

  lemma ClassMatches(s: string, i: nat, j: nat)
    requires i <= j <= |s| && ToLower(s) == s
    ensures Matches(LABEL_CLASS, true, s, i, j) <==> j == i + 1 && LabelChar(s[i])
  {
    if j == i + 1 {
      assert Lower(s[i]) == ToLower(s)[i] == s[i];
      assert LABEL_CLASS.ranges[0] == ('a', 'z') && LABEL_CLASS.ranges[1] == ('0', '9')
          && LABEL_CLASS.ranges[2] == ('-', '-');
      if LabelChar(s[i]) {
        var n := if 'a' <= s[i] <= 'z' then 0 else if s[i] == '-' then 2 else 1;
        assert InRange(LABEL_CLASS.ranges[n], true, s[i]);
      }
    }
  }

  lemma {:induction false} StarClassMatches(s: string, i: nat, j: nat)
    requires i <= j <= |s| && ToLower(s) == s
    ensures Matches(Star(LABEL_CLASS), true, s, i, j) <==> forall n :: i <= n < j ==> LabelChar(s[n])
    decreases j - i
  {
    if i < j {
      ClassMatches(s, i, i + 1);
      StarClassMatches(s, i + 1, j);
      forall k | i < k <= j
        ensures Matches(LABEL_CLASS, true, s, i, k) ==> k == i + 1
      {
        ClassMatches(s, i, k);
      }
    }
  }

  /** The label group matches exactly a label and its dot. */
  lemma LabelMatches(s: string, i: nat, j: nat)
    requires i <= j <= |s| && ToLower(s) == s
    ensures Matches(LABEL_RE, true, s, i, j) <==> j >= i + 2 && IsLabel(s[i..j - 1]) && s[j - 1] == '.'
  {
    if Matches(LABEL_RE, true, s, i, j) {
      MatchIsLabel(s, i, j);
    }
    if j >= i + 2 && IsLabel(s[i..j - 1]) && s[j - 1] == '.' {
      assert forall n :: i <= n < j - 1 ==> s[n] == s[i..j - 1][n - i];
      ClassMatches(s, i, i + 1);
      StarClassMatches(s, i + 1, j - 1);
      CatJoin(LABEL_CLASS, Star(LABEL_CLASS), s, i, i + 1, j - 1);
      assert Matches(Lit('.'), true, s, j - 1, j) && Matches(Empty, true, s, j, j);
      CatJoin(Lit('.'), Empty, s, j - 1, j, j);
      CatJoin(LABEL_RE.left, LABEL_RE.right, s, i, j - 1, j);
    }
  }

  lemma MatchIsLabel(s: string, i: nat, j: nat)
    requires i <= j <= |s| && ToLower(s) == s && Matches(LABEL_RE, true, s, i, j)
    ensures j >= i + 2 && IsLabel(s[i..j - 1]) && s[j - 1] == '.'
  {
    var k := CatSplit(LABEL_RE.left, LABEL_RE.right, s, i, j);
    var m := CatSplit(LABEL_CLASS, Star(LABEL_CLASS), s, i, k);
    var n := CatSplit(Lit('.'), Empty, s, k, j);
    ClassMatches(s, i, m);
    StarClassMatches(s, m, k);
    assert n == j == k + 1 && Lower('.') == Lower(s[k]);
  }

  lemma {:induction false} LabelsMatch(s: string, i: nat, j: nat)
    requires i <= j <= |s| && ToLower(s) == s
    ensures Matches(Star(LABEL_RE), true, s, i, j) <==> LabelRun(s[i..j])
    decreases j - i
  {
    if i == j {
      assert IsLabelling([], s[i..j]);
    } else {
      if Matches(Star(LABEL_RE), true, s, i, j) {
        var k := StarSplit(LABEL_RE, s, i, j);
        LabelMatches(s, i, k);
        LabelsMatch(s, k, j);
        LabelInFront(s[i..k - 1], s[k..j]);
        assert s[i..j] == s[i..k - 1] + "." + s[k..j];
      }
      if LabelRun(s[i..j]) {
        var k := LabelEnd(s, i, j);
        LabelsMatch(s, k, j);
        assert Matches(Star(LABEL_RE), true, s, k, j);
      }
    }
  }

  lemma LabelEnd(s: string, i: nat, j: nat) returns (k: nat)
    requires i < j <= |s| && ToLower(s) == s && LabelRun(s[i..j])
    ensures i < k <= j && Matches(LABEL_RE, true, s, i, k) && LabelRun(s[k..j])
  {
    var x := s[i..j];
    var n := LabelFront(x);
    k := i + n;
    assert s[i..k - 1] == x[..n - 1] && s[k..j] == x[n..] && s[k - 1] == x[n - 1];
    LabelMatches(s, i, k);
  }

  lemma LabelInFront(l: string, x: string)
    requires IsLabel(l) && LabelRun(x)
    ensures LabelRun(l + "." + x)
  {
    var rest :| IsLabelling(rest, x);
    var labels := [l] + rest;
    assert labels[1..] == rest;
    assert IsLabelling(labels, l + "." + x);
  }

  /** Where the first label of a nonempty run ends, its dot included. */
  lemma LabelFront(x: string) returns (n: nat)
    requires LabelRun(x) && x != ""
    ensures 2 <= n <= |x| && IsLabel(x[..n - 1]) && x[n - 1] == '.' && LabelRun(x[n..])
  {
    var labels :| IsLabelling(labels, x);
    n := |labels[0]| + 1;
    assert labels[0] in labels;
    assert x == labels[0] + "." + Dotted(labels[1..]);
    assert x[..n - 1] == labels[0] && x[n..] == Dotted(labels[1..]);
    assert IsLabelling(labels[1..], x[n..]);
  }

}
