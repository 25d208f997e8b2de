/** What compiled domain patterns match, and exactly which patterns compile faithfully. */
module DomainPatterns {
  import opened Prelude
  import opened Regex
  import opened Patterns
  import opened Matcher

  /** The documented meaning of a domain pattern: `*.s` is `s` itself or `s` behind labels,
      anything else is a glob over the whole domain. */
  ghost predicate DomainDenotes(pattern: string, d: string) {
    if HasPrefix(pattern, "*.") then SubdomainDenotes(pattern[2..], d) else GlobDenotes(pattern, d)
  }

  ghost predicate SubdomainDenotes(suffix: string, d: string) {
    exists k :: 0 <= k <= |d| && SubdomainAt(suffix, d, k)
  }

  ghost predicate SubdomainAt(suffix: string, d: string, k: nat)
    requires k <= |d|
  {
    LabelRun(ToLower(d)[..k]) && GlobDenotes(suffix, d[k..])
  }

  /** Patterns whose text the emitter escapes completely. */
  predicate DomainPlain(p: string) {
    if HasPrefix(p, "*.") then '*' !in p[2..]
    else if '*' in p then AllPlain(DomainGlob, p)
    else true
  }

  function CompileDomain(pattern: string): Result<Regexp, CompileError> {
    Compile(DomainText(pattern))
  }

  const TAIL := Cat(End, Empty)

  lemma TailParses()
    ensures NoRepeat("$") && ParseCat("$") == Ok(TAIL, "")
  {
    assert "$"[1..] == "";
    assert PieceParses("$", End, "");
    ParseCatStep("$", End, "");
  }

  lemma BeginParses(rest: string)
    requires NoRepeat(rest)
    ensures PieceParses("^" + rest, Begin, rest)
  {
    assert ("^" + rest)[1..] == rest;
  }

  /** The subdomain group, then whatever the rest of the text is. */
  lemma LabelsParse(rest: string)
    ensures ParseAtom(LABELS + rest) == Ok(LABEL_RE, "*" + rest)
    ensures NoRepeat(rest) ==> PieceParses(LABELS + rest, Star(LABEL_RE), rest)
  {
    var t := "[a-z0-9-]+\\." + (")*" + rest);
    assert LABELS + rest == "(" + t;
    GroupParses(rest);
    if NoRepeat(rest) {
      StarPostfix(LABEL_RE, rest);
    }
  }

  lemma GroupParses(rest: string)
    ensures ParseAtom("(" + ("[a-z0-9-]+\\." + (")*" + rest))) == Ok(LABEL_RE, "*" + rest)
  {
    var close := ")*" + rest;
    var t := "[a-z0-9-]+\\." + close;
    GroupBodyParses(close);
    assert ParseAlt(t) == Ok(LABEL_RE, close);
    assert close[1..] == "*" + rest;
    GroupAtom(t, LABEL_RE, close);
  }

  /** A group is what it encloses. */
  lemma GroupAtom(t: string, r: Re, close: string)
    requires ParseAlt(t) == Ok(r, close) && close != "" && close[0] == ')' && t != "" && t[0] != '?'
    ensures ParseAtom("(" + t) == Ok(r, close[1..])
  {
    assert ("(" + t)[1..] == t && ("(" + t)[1] == t[0];
  }

  lemma StarPostfix(a: Re, rest: string)
    requires NoRepeat(rest)
    ensures ParsePostfix(a, "*" + rest) == Ok(Star(a), rest)
  {
    assert ("*" + rest)[1..] == rest;
    assert |"*" + rest| >= 2 ==> ("*" + rest)[1] == rest[0];
  }

  lemma GroupBodyParses(close: string)
    requires close != "" && close[0] == ')'
    ensures ParseCat("[a-z0-9-]+\\." + close) == Ok(LABEL_RE, close)
  {
    var dot := "\\." + close;
    var t := "[a-z0-9-]+" + dot;
    assert "[a-z0-9-]+\\." + close == t;
    ClassPiece(dot);
    DotPiece(close);
    assert ParseCat(close) == Ok(Empty, close);
    ParseCatStep(dot, Lit('.'), close);
    ParseCatStep(t, Cat(LABEL_CLASS, Star(LABEL_CLASS)), dot);
  }

  lemma DotPiece(close: string)
    requires NoRepeat(close)
    ensures PieceParses("\\." + close, Lit('.'), close)
  {
    var dot := "\\." + close;
    assert dot[0] == '\\' && dot[1] == '.' && dot[2..] == close;
  }

  lemma ClassPiece(rest: string)
    requires rest != "" && rest[0] == '\\'
    ensures PieceParses("[a-z0-9-]+" + rest, Cat(LABEL_CLASS, Star(LABEL_CLASS)), rest)
  {
    var t := "[a-z0-9-]+" + rest;
    ClassParses("+" + rest);
    assert t[0] == '[' && t[1..] == "a-z0-9-]" + ("+" + rest);
    assert ("+" + rest)[1..] == rest;
  }

  lemma ClassParses(rest: string)
    ensures ParseClass("a-z0-9-]" + rest, true) == Ok(LABEL_CLASS.ranges, rest)
  {
    var t := "a-z0-9-]" + rest;
    var t1, t2, t3 := "0-9-]" + rest, "-]" + rest, "]" + rest;
    assert t[3..] == t1 && t1[3..] == t2 && t2[1..] == t3 && t3[1..] == rest;
    assert t2[0] == '-' && t2[1] == ']' && t1[0] == '0' && t1[1] == '-' && t1[2] == '9';
    assert ParseClass(t3, false) == Ok([], rest);
    var r := LABEL_CLASS.ranges;
    assert [r[2]] + [] == r[2..] && [r[1]] + r[2..] == r[1..] && [r[0]] + r[1..] == r;
    assert ParseClass(t2, false) == Ok(r[2..], rest);
    assert ParseClass(t1, false) == Ok(r[1..], rest);
  }

  lemma AnchoredMatch(x: Re, s: string)
    ensures MatchString(Regexp(true, Cat(Begin, x)), s) <==> exists j :: 0 <= j <= |s| && Matches(x, true, s, 0, j)
  {
    var re := Regexp(true, Cat(Begin, x));
    if MatchString(re, s) {
      var i, j := MatchSplit(re, s);
      var k := CatSplit(Begin, x, s, i, j);
      assert Matches(x, true, s, 0, j);
    }
    if j: nat :| j <= |s| && Matches(x, true, s, 0, j) {
      assert Matches(x, true, s, 0, j);
      CatJoin(Begin, x, s, 0, 0, j);
      MatchAt(re, s, 0, j);
    }
  }

  lemma TailMatches(s: string, k: nat, j: nat)
    requires k <= j <= |s|
    ensures Matches(TAIL, true, s, k, j) <==> k == j == |s|
  {
    if k == j == |s| {
      assert Matches(End, true, s, k, k) && Matches(Empty, true, s, k, k);
    }
  }

  lemma AnchoredTokens(p: string, s: string, i: nat, j: nat)
    requires i <= j <= |s|
    ensures Matches(TokensRe(p, TAIL), true, s, i, j) <==> j == |s| && Spans(p, s, i, |s|)
  {
    TokensMatch(p, TAIL, s, i, j);
    forall k | i <= k <= j ensures Matches(TAIL, true, s, k, j) <==> k == j == |s| {
      TailMatches(s, k, j);
    }
  }

  // ---------- Exact and wildcard patterns ----------

  lemma PlainFold(d: Dialect, p: string)
    ensures AllPlain(d, ToLower(p)) <==> AllPlain(d, p)
    ensures '*' in ToLower(p) <==> '*' in p
    ensures HasPrefix(ToLower(p), "*.") <==> HasPrefix(p, "*.")
    ensures HasPrefix(p, "*.") ==> ToLower(p)[2..] == ToLower(p[2..])
  {
    var q := ToLower(p);
    assert forall i :: 0 <= i < |p| ==> q[i] == Lower(p[i]) && (Plain(d, q[i]) <==> Plain(d, p[i]));
    if '*' in p {
      var i :| 0 <= i < |p| && p[i] == '*';
      assert q[i] == '*';
    }
  }

  lemma WholeCompiles(pattern: string)
    requires DomainPlain(pattern) && !HasPrefix(pattern, "*.")
    ensures CompileDomain(pattern) == Success(Regexp(true, Cat(Begin, TokensRe(ToLower(pattern), TAIL))))
  {
    var p := ToLower(pattern);
    var d := if '*' in p then DomainGlob else Escaped;
    PlainFold(d, pattern);
    TailParses();
    EmitParses(d, p, "$", TAIL);
    EmitNoRepeat(d, p, "$");
    var rest := EmitText(d, p) + "$";
    BeginParses(rest);
    ParseCatStep("^" + rest, Begin, rest);
    CompileFolded("^" + rest, Cat(Begin, TokensRe(p, TAIL)));
  }

  lemma WholeCorrect(pattern: string, d: string)
    requires DomainPlain(pattern) && !HasPrefix(pattern, "*.")
    ensures CompileDomain(pattern).Success?
    ensures MatchString(CompileDomain(pattern).value, ToLower(d)) <==> GlobDenotes(pattern, d)
  {
    WholeCompiles(pattern);
    var p, s := ToLower(pattern), ToLower(d);
    AnchoredMatch(TokensRe(p, TAIL), s);
    forall j | 0 <= j <= |s|
      ensures Matches(TokensRe(p, TAIL), true, s, 0, j) <==> j == |s| && Spans(p, s, 0, |s|)
    {
      AnchoredTokens(p, s, 0, j);
    }
    SpansDenotes(p, s, 0, |s|);
    assert s[0..|s|] == s;
    assert Matches(TokensRe(p, TAIL), true, s, 0, |s|) <==> Spans(p, s, 0, |s|);
    ToLowerIdempotent(pattern);
    ToLowerIdempotent(d);
    GlobFold(p, pattern, s, d);
  }

  // ---------- Subdomain patterns ----------

  lemma SubdomainCompiles(pattern: string)
    requires HasPrefix(pattern, "*.") && '*' !in pattern[2..]
    ensures CompileDomain(pattern)
         == Success(Regexp(true, Cat(Begin, Cat(Star(LABEL_RE), TokensRe(ToLower(pattern[2..]), TAIL)))))
  {
    var p := ToLower(pattern[2..]);
    PlainFold(Escaped, pattern);
    PlainFold(Escaped, pattern[2..]);
    TailParses();
    EmitParses(Escaped, p, "$", TAIL);
    EmitNoRepeat(Escaped, p, "$");
    var rest := EmitText(Escaped, p) + "$";
    LabelsParse(rest);
    ParseCatStep(LABELS + rest, Star(LABEL_RE), rest);
    var body := LABELS + rest;
    BeginParses(body);
    ParseCatStep("^" + body, Begin, body);
    assert DomainBody(ToLower(pattern)) + "$" == body;
    CompileFolded("^" + body, Cat(Begin, Cat(Star(LABEL_RE), TokensRe(p, TAIL))));
  }

  ghost predicate LabelledAt(tail: Re, s: string, k: nat, j: nat)
    requires k <= j <= |s|
  {
    LabelRun(s[..k]) && Matches(tail, true, s, k, j)
  }

  /** A label run followed by `tail`. */
  lemma LabelledMatch(tail: Re, s: string)
    requires ToLower(s) == s
    ensures MatchString(Regexp(true, Cat(Begin, Cat(Star(LABEL_RE), tail))), s)
       <==> exists k, j :: 0 <= k <= j <= |s| && LabelledAt(tail, s, k, j)
  {
    var x := Cat(Star(LABEL_RE), tail);
    AnchoredMatch(x, s);
    if j: nat :| j <= |s| && Matches(x, true, s, 0, j) {
      LabelledMatchSplit(tail, s, j);
    }
    if k: nat, j: nat :| k <= j <= |s| && LabelledAt(tail, s, k, j) {
      assert s[0..k] == s[..k];
      LabelsMatch(s, 0, k);
      CatJoin(Star(LABEL_RE), tail, s, 0, k, j);
      assert Matches(x, true, s, 0, j);
    }
  }

  lemma LabelledMatchSplit(tail: Re, s: string, j: nat)
    requires ToLower(s) == s && j <= |s| && Matches(Cat(Star(LABEL_RE), tail), true, s, 0, j)
    ensures exists k :: 0 <= k <= j && LabelledAt(tail, s, k, j)
  {
    var k := CatSplit(Star(LABEL_RE), tail, s, 0, j);
    LabelsMatch(s, 0, k);
    assert s[0..k] == s[..k];
    assert LabelledAt(tail, s, k, j);
  }

  lemma SubdomainCorrect(pattern: string, d: string)
    requires HasPrefix(pattern, "*.") && '*' !in pattern[2..]
    ensures CompileDomain(pattern).Success?
    ensures MatchString(CompileDomain(pattern).value, ToLower(d)) <==> SubdomainDenotes(pattern[2..], d)
  {
    SubdomainCompiles(pattern);
    var suffix := pattern[2..];
    var p, s := ToLower(suffix), ToLower(d);
    ToLowerIdempotent(d);
    ToLowerIdempotent(suffix);
    LabelledMatch(TokensRe(p, TAIL), s);
    forall k, j | 0 <= k <= j <= |s|
      ensures Matches(TokensRe(p, TAIL), true, s, k, j) <==> j == |s| && GlobDenotes(suffix, d[k..])
    {
      AnchoredTokens(p, s, k, j);
      SpansDenotes(p, s, k, |s|);
      assert s[k..|s|] == ToLower(d[k..]);
      ToLowerIdempotent(d[k..]);
      GlobFold(p, suffix, s[k..|s|], d[k..]);
    }
    if SubdomainDenotes(suffix, d) {
      var k :| 0 <= k <= |d| && SubdomainAt(suffix, d, k);
      assert LabelledAt(TokensRe(p, TAIL), s, k, |s|);
    }
    if k, j :| 0 <= k <= j <= |s| && LabelledAt(TokensRe(p, TAIL), s, k, j) {
      assert SubdomainAt(suffix, d, k);
    }
  }

  /** Domain compiler correctness: a completely escaped pattern compiles, and the expression
      matches a domain exactly when the pattern denotes it. */
  lemma DomainCorrect(pattern: string, d: string)
    requires DomainPlain(pattern)
    ensures CompileDomain(pattern).Success?
    ensures MatchString(CompileDomain(pattern).value, ToLower(d)) <==> DomainDenotes(pattern, d)
  {
    if HasPrefix(pattern, "*.") {
      SubdomainCorrect(pattern, d);
    } else {
      WholeCorrect(pattern, d);
    }
  }

  /** A star-free pattern matches exactly itself, up to case. */
  lemma StarFreeIsExact(pattern: string, d: string)
    requires '*' !in pattern
    ensures CompileDomain(pattern).Success?
    ensures MatchString(CompileDomain(pattern).value, ToLower(d)) <==> ToLower(d) == ToLower(pattern)
  {
    assert pattern != "" ==> pattern[0] in pattern;
    WholeCorrect(pattern, d);
    StarFreeDenotes(pattern, d);
  }

  // ---------- The subdomain star as a linear scan ----------

  /** `d` ends with the suffix and the bytes before it scan as complete labels. */
  predicate SuffixScan(suffix: string, d: string) {
    var n := |d| - |suffix|;
    n >= 0 && ToLower(d)[n..] == ToLower(suffix) && LabelScan(ToLower(d)[..n], false)
  }

  lemma SubdomainIsScan(suffix: string, d: string)
    requires '*' !in suffix
    ensures SubdomainDenotes(suffix, d) <==> SuffixScan(suffix, d)
  {
    forall k | 0 <= k <= |d|
      ensures SubdomainAt(suffix, d, k)
         <==> ToLower(d)[k..] == ToLower(suffix) && LabelScan(ToLower(d)[..k], false)
    {
      LabelScanCorrect(ToLower(d)[..k]);
      StarFreeDenotes(suffix, d[k..]);
      assert ToLower(d[k..]) == ToLower(d)[k..];
    }
    if SubdomainDenotes(suffix, d) {
      var k :| 0 <= k <= |d| && SubdomainAt(suffix, d, k);
      assert |ToLower(d)[k..]| == |d| - k == |suffix|;
    }
    if SuffixScan(suffix, d) {
      assert SubdomainAt(suffix, d, |d| - |suffix|);
    }
  }

  /** The compiled `*.s` decides exactly the linear scan. */
  lemma SubdomainStarIsScan(suffix: string, d: string)
    requires '*' !in suffix
    ensures CompileDomain("*." + suffix).Success?
    ensures MatchString(CompileDomain("*." + suffix).value, ToLower(d)) <==> SuffixScan(suffix, d)
  {
    assert ("*." + suffix)[2..] == suffix;
    SubdomainCorrect("*." + suffix, d);
    SubdomainIsScan(suffix, d);
  }

  /** A match of `*.s` begins at a label boundary: the domain is `s`, or a dot precedes `s`. */
  lemma SubdomainBoundary(suffix: string, d: string)
    requires '*' !in suffix && CompileDomain("*." + suffix).Success?
    requires MatchString(CompileDomain("*." + suffix).value, ToLower(d))
    ensures ToLower(d) == ToLower(suffix) || (|d| > |suffix| && d[|d| - |suffix| - 1] == '.')
  {
    SubdomainStarIsScan(suffix, d);
    var n := |d| - |suffix|;
    var x := ToLower(d)[..n];
    if n == 0 {
      assert ToLower(d)[0..] == ToLower(d);
    } else {
      LabelScanCorrect(x);
      var labels :| IsLabelling(labels, x);
      DottedEndsInDot(labels);
      assert x[n - 1] == Lower(d[n - 1]);
    }
  }

  lemma {:induction false} DottedEndsInDot(labels: seq<string>)
    ensures Dotted(labels) != "" ==> Dotted(labels)[|Dotted(labels)| - 1] == '.'
  {
    if labels != [] {
      DottedEndsInDot(labels[1..]);
    }
  }
}
