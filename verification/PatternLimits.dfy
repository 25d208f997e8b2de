/** Where compiled `*.` patterns stop meaning what the documentation says, exactly: a star in
    the suffix. */
module PatternLimits {
  import opened Prelude
  import opened Regex
  import opened Patterns
  import opened Matcher
  import opened DomainPatterns

  // ---------- A star inside a `*.` suffix ----------

  /** No star begins the text and no two stars are adjacent. */
  predicate SingleStars(p: string) {
    p == "" || (p[0] != '*' && forall i :: 1 <= i < |p| && p[i] == '*' ==> p[i - 1] != '*')
  }

  /** The escaper leaves a star as it is, so it repeats the character before it. */
  function StarredRe(p: string): Re {
    if p == "" then TAIL
    else if |p| >= 2 && p[1] == '*' then Cat(Star(Lit(p[0])), StarredRe(p[2..]))
    else Cat(Lit(p[0]), StarredRe(p[1..]))
  }

  lemma EscapedLiteral(c: char, tail: string)
    requires c != '*'
    ensures ParseAtom(TokenText(Escaped, c) + tail) == Ok(Lit(c), tail)
    ensures (TokenText(Escaped, c) + tail)[0] !in ")|"
  {
    var t := TokenText(Escaped, c) + tail;
    if c in META {
      assert t[0] == '\\' && t[1] == c && t[2..] == tail;
    } else {
      assert t[0] == c && t[1..] == tail;
    }
  }

  /** What an escaped text begins with. */
  lemma EscapedHead(p: string)
    ensures var t := EmitText(Escaped, p) + "$";
            && (p != "" && p[0] == '*' ==> t[0] == '*')
            && (p == "" || p[0] != '*' ==> NoRepeat(t))
  {
    if p != "" {
      assert (EmitText(Escaped, p) + "$")[0] == TokenText(Escaped, p[0])[0];
    }
  }

  /** The tail of a suffix with inner stars parses if and only if every star follows exactly
      one character of its own. */
  lemma {:induction false} StarredParses(p: string)
    ensures SingleStars(p) ==> ParseCat(EmitText(Escaped, p) + "$") == Ok(StarredRe(p), "")
    ensures !SingleStars(p) ==> ParseCat(EmitText(Escaped, p) + "$").Invalid?
    decreases |p|
  {
    var t := EmitText(Escaped, p) + "$";
    EscapedHead(p);
    if p == "" {
      TailParses();
      assert t == "$";
    } else if p[0] != '*' {
      var rest := EmitText(Escaped, p[1..]) + "$";
      assert t == TokenText(Escaped, p[0]) + rest;
      EscapedLiteral(p[0], rest);
      EscapedHead(p[1..]);
      if |p| >= 2 && p[1] == '*' {
        StarredPair(p, t, rest);
      } else {
        StarredParses(p[1..]);
        SingleStarsTail(p, 1);
        assert PieceParses(t, Lit(p[0]), rest);
        ParseCatStep(t, Lit(p[0]), rest);
      }
    }
  }

  lemma {:induction false} StarredPair(p: string, t: string, rest: string)
    requires |p| >= 2 && p[0] != '*' && p[1] == '*'
    requires t == EmitText(Escaped, p) + "$" && rest == EmitText(Escaped, p[1..]) + "$"
    requires t != "" && t[0] !in ")|" && ParseAtom(t) == Ok(Lit(p[0]), rest)
    ensures SingleStars(p) ==> ParseCat(t) == Ok(StarredRe(p), "")
    ensures !SingleStars(p) ==> ParseCat(t).Invalid?
    decreases |p|, 0
  {
    var more := EmitText(Escaped, p[2..]) + "$";
    assert p[1..][1..] == p[2..] && TokenText(Escaped, '*') == "*";
    assert rest == "*" + more;
    EscapedHead(p[2..]);
    EscapedNoLazy(p[2..]);
    SingleStarsTail(p, 2);
    if |p| >= 3 && p[2] == '*' {
      assert !SingleStars(p);
      SecondStarInvalid(t, Lit(p[0]), more);
    } else {
      StarredParses(p[2..]);
      StarPiece(t, Lit(p[0]), more);
      ParseCatStep(t, Star(Lit(p[0])), more);
    }
  }

  lemma StarPiece(t: string, a: Re, more: string)
    requires t != "" && t[0] !in ")|" && ParseAtom(t) == Ok(a, "*" + more)
    requires NoRepeat(more)
    ensures PieceParses(t, Star(a), more)
  {
    assert ("*" + more)[1..] == more;
    assert |"*" + more| >= 2 ==> ("*" + more)[1] == more[0];
  }

  lemma SecondStarInvalid(t: string, a: Re, more: string)
    requires t != "" && t[0] !in ")|" && ParseAtom(t) == Ok(a, "*" + more)
    requires more != "" && more[0] == '*'
    ensures ParseCat(t).Invalid?
  {
    assert ("*" + more)[1..] == more;
    assert ParsePostfix(a, "*" + more) == Invalid;
  }

  lemma EscapedNoLazy(p: string)
    ensures (EmitText(Escaped, p) + "$")[0] != '?'
  {
    if p != "" {
      assert (EmitText(Escaped, p) + "$")[0] == TokenText(Escaped, p[0])[0];
    }
  }

  lemma SingleStarsTail(p: string, n: nat)
    requires 1 <= n <= |p| && n <= 2 && p[0] != '*' && (n == 2 ==> p[1] == '*') && (n == 1 && |p| >= 2 ==> p[1] != '*')
    ensures SingleStars(p) <==> SingleStars(p[n..])
  {
    assert forall i :: n <= i < |p| ==> p[i] == p[n..][i - n];
    if SingleStars(p[n..]) {
      forall i | 1 <= i < |p| && p[i] == '*'
        ensures p[i - 1] != '*'
      {
        if i > n {
          assert p[n..][i - n] == '*';
        }
      }
    }
    if SingleStars(p) && n < |p| {
      forall i | 1 <= i < |p[n..]| && p[n..][i] == '*'
        ensures p[n..][i - 1] != '*'
      {
        assert p[n + i] == '*';
      }
    }
  }

  lemma CompileOutcome(body: string)
    ensures ParseCat(body).Ok? && ParseCat(body).rest == "" ==>
              Compile(FOLD_FLAG + body) == Success(Regexp(true, ParseCat(body).value))
    ensures ParseCat(body).Invalid? ==> Compile(FOLD_FLAG + body) == Failure(Malformed)
  {
    assert (FOLD_FLAG + body)[4..] == body;
  }

  /** The subdomain group in front of an escaped suffix. */
  lemma LabelledBody(p: string)
    ensures SingleStars(p) ==>
              ParseCat(LABELS + (EmitText(Escaped, p) + "$")) == Ok(Cat(Star(LABEL_RE), StarredRe(p)), "")
    ensures !SingleStars(p) ==> ParseCat(LABELS + (EmitText(Escaped, p) + "$")).Invalid?
  {
    var rest := EmitText(Escaped, p) + "$";
    var body := LABELS + rest;
    StarredParses(p);
    EscapedHead(p);
    LabelsParse(rest);
    if p == "" || p[0] != '*' {
      ParseCatStep(body, Star(LABEL_RE), rest);
    } else {
      assert ("*" + rest)[1..] == rest;
      assert body[0] == '(';
      assert ParsePostfix(LABEL_RE, "*" + rest) == Invalid;
      assert ParseCat(body).Invalid?;
    }
  }

  /** Which `*.` patterns compile: those whose suffix does not begin with a star and has no
      two adjacent stars. A rule list with any other fails to load as a whole. */
  lemma SubdomainCompilesExactly(pattern: string)
    requires HasPrefix(pattern, "*.")
    ensures CompileDomain(pattern).Success? <==> SingleStars(pattern[2..])
    ensures CompileDomain(pattern).Success? ==>
              CompileDomain(pattern).value == Regexp(true, Cat(Begin, Cat(Star(LABEL_RE), StarredRe(ToLower(pattern[2..])))))
  {
    var p := ToLower(pattern[2..]);
    PlainFold(Escaped, pattern);
    SingleStarsFold(pattern[2..]);
    LabelledBody(p);
    var body := LABELS + (EmitText(Escaped, p) + "$");
    assert DomainBody(ToLower(pattern)) + "$" == body;
    BeginParses(body);
    ParseCatStep("^" + body, Begin, body);
    CompileOutcome("^" + body);
  }

  lemma SingleStarsFold(p: string)
    ensures SingleStars(ToLower(p)) <==> SingleStars(p)
  {
    assert forall i :: 0 <= i < |p| ==> ToLower(p)[i] == Lower(p[i]);
  }

  /** The suffix with every starred character dropped. */
  function Unstarred(p: string): string {
    if p == "" then ""
    else if |p| >= 2 && p[1] == '*' then Unstarred(p[2..])
    else [p[0]] + Unstarred(p[1..])
  }

  lemma {:induction false} UnstarredMatches(p: string, s: string, i: nat)
    requires i <= |s| && s[i..] == Unstarred(p)
    ensures Matches(StarredRe(p), true, s, i, |s|)
    decreases |p|
  {
    if p == "" {
      TailMatches(s, i, |s|);
    } else if |p| >= 2 && p[1] == '*' {
      UnstarredMatches(p[2..], s, i);
      assert Matches(Star(Lit(p[0])), true, s, i, i);
      CatJoin(Star(Lit(p[0])), StarredRe(p[2..]), s, i, i, |s|);
    } else {
      assert s[i] == s[i..][0] == p[0] && s[i + 1..] == s[i..][1..] == Unstarred(p[1..]);
      UnstarredMatches(p[1..], s, i + 1);
      assert Matches(Lit(p[0]), true, s, i, i + 1);
      CatJoin(Lit(p[0]), StarredRe(p[1..]), s, i, i + 1, |s|);
    }
  }

  lemma {:induction false} UnstarredLength(p: string)
    requires SingleStars(p)
    ensures |Unstarred(p)| == |p| - 2 * Stars(p)
    decreases |p|
  {
    if p != "" {
      if |p| >= 2 && p[1] == '*' {
        SingleStarsTail(p, 2);
        UnstarredLength(p[2..]);
        assert Stars(p) == Stars(p[1..]) == 1 + Stars(p[1..][1..]) && p[1..][1..] == p[2..];
      } else {
        SingleStarsTail(p, 1);
        UnstarredLength(p[1..]);
      }
    }
  }

  lemma {:induction false} FillLength(p: string, runs: seq<string>)
    requires |runs| == Stars(p)
    ensures |Fill(p, runs)| >= |p| - Stars(p)
    decreases |p|
  {
    if p != "" {
      FillLength(p[1..], if p[0] == '*' then runs[1..] else runs);
    }
  }

  lemma DenotedLength(p: string, x: string)
    ensures GlobDenotes(p, x) ==> |x| >= |p| - Stars(p)
  {
    if runs :| IsFilling(p, runs, x) {
      FillLength(p, runs);
      assert |Fill(p, runs)| == |ToLower(Fill(p, runs))|;
    }
  }

  lemma {:induction false} StarsFold(p: string)
    ensures Stars(ToLower(p)) == Stars(p)
    ensures Stars(p) == 0 <==> '*' !in p
  {
    if p != "" {
      assert ToLower(p)[1..] == ToLower(p[1..]);
      StarsFold(p[1..]);
    }
  }

  /** The compiled pattern and its documented meaning agree on every domain. */
  ghost predicate Faithful(pattern: string) {
    CompileDomain(pattern).Success?
    && forall d: string :: MatchString(CompileDomain(pattern).value, ToLower(d)) <==> DomainDenotes(pattern, d)
  }

  lemma UnstarredDisagrees(pattern: string)
    requires HasPrefix(pattern, "*.") && '*' in pattern[2..] && SingleStars(pattern[2..])
    ensures CompileDomain(pattern).Success?
    ensures var d := Unstarred(ToLower(pattern[2..]));
            MatchString(CompileDomain(pattern).value, ToLower(d)) && !DomainDenotes(pattern, d)
  {
    var suffix := pattern[2..];
    var p := ToLower(suffix);
    var d := Unstarred(p);
    ToLowerIdempotent(suffix);
    UnstarredLower(p);
    SubdomainCompilesExactly(pattern);
    assert d[0..] == d;
    UnstarredMatches(p, d, 0);
    assert Matches(Star(LABEL_RE), true, d, 0, 0) && Matches(Begin, true, d, 0, 0);
    CatJoin(Star(LABEL_RE), StarredRe(p), d, 0, 0, |d|);
    CatJoin(Begin, Cat(Star(LABEL_RE), StarredRe(p)), d, 0, 0, |d|);
    MatchAt(CompileDomain(pattern).value, d, 0, |d|);
    StarsFold(suffix);
    SingleStarsFold(suffix);
    UnstarredLength(p);
    forall k | 0 <= k <= |d|
      ensures !SubdomainAt(suffix, d, k)
    {
      DenotedLength(suffix, d[k..]);
    }
  }

  lemma {:induction false} UnstarredLower(p: string)
    requires ToLower(p) == p
    ensures ToLower(Unstarred(p)) == Unstarred(p)
    decreases |p|
  {
    if p != "" {
      assert forall i :: 0 <= i < |p| ==> Lower(p[i]) == ToLower(p)[i] == p[i];
      assert ToLower(p[1..]) == p[1..];
      if |p| >= 2 && p[1] == '*' {
        assert ToLower(p[2..]) == p[2..];
        UnstarredLower(p[2..]);
      } else {
        UnstarredLower(p[1..]);
        ToLowerConcat([p[0]], Unstarred(p[1..]));
      }
    }
  }

  /** A `*.` pattern means what is documented, on every domain, exactly when its suffix
      holds no star. */
  lemma SubdomainFaithfulExactly(pattern: string)
    requires HasPrefix(pattern, "*.")
    ensures Faithful(pattern) <==> '*' !in pattern[2..]
  {
    SubdomainCompilesExactly(pattern);
    if '*' !in pattern[2..] {
      forall d: string
        ensures MatchString(CompileDomain(pattern).value, ToLower(d)) <==> DomainDenotes(pattern, d)
      {
        SubdomainCorrect(pattern, d);
      }
      SubdomainCorrect(pattern, "");
    } else if SingleStars(pattern[2..]) {
      UnstarredDisagrees(pattern);
    }
  }

  // ---------- A pattern without its stars ----------

  /** The pattern without its stars. */
  function Literals(p: string): string {
    if p == "" then "" else (if p[0] == '*' then "" else [p[0]]) + Literals(p[1..])
  }

  lemma {:induction false} LiteralsSplit(p: string, q: string)
    ensures Literals(p + q) == Literals(p) + Literals(q)
    ensures Stars(p + q) == Stars(p) + Stars(q)
    decreases |p|
  {
    if p == "" {
      assert p + q == q;
    } else {
      assert (p + q)[1..] == p[1..] + q;
      LiteralsSplit(p[1..], q);
    }
  }

  function Blanks(n: nat): seq<string> {
    seq(n, _ => "")
  }

  lemma {:induction false} FillBlanks(p: string)
    ensures Fill(p, Blanks(Stars(p))) == Literals(p)
    decreases |p|
  {
    if p != "" {
      FillBlanks(p[1..]);
      if p[0] == '*' {
        assert Blanks(Stars(p))[1..] == Blanks(Stars(p[1..]));
      }
    }
  }

  lemma BlanksDenote(p: string, x: string)
    requires ToLower(Literals(p)) == ToLower(x)
    ensures GlobDenotes(p, x)
  {
    FillBlanks(p);
    assert IsFilling(p, Blanks(Stars(p)), x);
  }
}
