/** The texts that the pattern compiler emits, what they parse to, and what those
    expressions match. Three dialects share one shape, a character-by-character emitter:
    the command glob, the wildcard domain pattern, and a fully escaped literal. */
module Patterns {
  import opened Prelude
  import opened Regex

  datatype Dialect = CommandGlob | DomainGlob | Escaped

  /** What the emitter writes for one pattern character. */
  function TokenText(d: Dialect, c: char): string {
    match d
    case CommandGlob => if c == '*' then ".*?" else if c in META then ['\\', c] else [c]
    case DomainGlob => if c == '*' then ".*" else if c == '.' then "\\." else [c]
    case Escaped => if c in META then ['\\', c] else [c]
  }

  function EmitText(d: Dialect, p: string): string {
    if p == "" then "" else TokenText(d, p[0]) + EmitText(d, p[1..])
  }

  lemma {:induction false} EmitTextAppend(d: Dialect, p: string, c: char)
    ensures EmitText(d, p + [c]) == EmitText(d, p) + TokenText(d, c)
  {
    if p == "" {
      assert EmitText(d, [c]) == TokenText(d, c) + EmitText(d, [c][1..]);
    } else {
      EmitTextAppend(d, p[1..], c);
      assert (p + [c])[1..] == p[1..] + [c];
    }
  }

  // ---------- Glob meaning ----------

  function Stars(p: string): nat {
    if p == "" then 0 else (if p[0] == '*' then 1 else 0) + Stars(p[1..])
  }

  /** The pattern with its stars replaced, left to right, by the given runs. */
  function Fill(p: string, runs: seq<string>): string {
    if p == "" then ""
    else if p[0] == '*' then
      if runs == [] then Fill(p[1..], []) else runs[0] + Fill(p[1..], runs[1..])
    else [p[0]] + Fill(p[1..], runs)
  }

  ghost predicate IsFilling(p: string, runs: seq<string>, x: string) {
    |runs| == Stars(p) && (forall r :: r in runs ==> NoNewline(r)) && ToLower(Fill(p, runs)) == ToLower(x)
  }

  /** `x` equals the glob up to ASCII case, each star standing for some newline-free run. */
  ghost predicate GlobDenotes(p: string, x: string) {
    exists runs :: IsFilling(p, runs, x)
  }

  /** The same relation as a scan of `s[i..k]`. */
  ghost predicate Spans(p: string, s: string, i: nat, k: nat)
    requires i <= k <= |s|
    decreases |p|
  {
    if p == "" then i == k
    else if p[0] == '*' then
      exists m | i <= m <= k :: NoNewline(s[i..m]) && Spans(p[1..], s, m, k)
    else i < k && Lower(p[0]) == Lower(s[i]) && Spans(p[1..], s, i + 1, k)
  }

  lemma {:induction false} SpansDenotes(p: string, s: string, i: nat, k: nat)
    requires i <= k <= |s|
    ensures Spans(p, s, i, k) <==> GlobDenotes(p, s[i..k])
    decreases |p|
  {
    if Spans(p, s, i, k) {
      var runs := SpansToFilling(p, s, i, k);
    }
    if GlobDenotes(p, s[i..k]) {
      var runs :| IsFilling(p, runs, s[i..k]);
      FillingToSpans(p, runs, s, i, k);
    }
  }

  lemma {:induction false} SpansToFilling(p: string, s: string, i: nat, k: nat) returns (runs: seq<string>)
    requires i <= k <= |s| && Spans(p, s, i, k)
    ensures IsFilling(p, runs, s[i..k])
    decreases |p|
  {
    if p == "" {
      runs := [];
    } else if p[0] == '*' {
      var m :| i <= m <= k && NoNewline(s[i..m]) && Spans(p[1..], s, m, k);
      var rest := SpansToFilling(p[1..], s, m, k);
      runs := [s[i..m]] + rest;
      FillingStar(p, s[i..m], rest, s[m..k]);
      assert s[i..k] == s[i..m] + s[m..k];
    } else {
      runs := SpansToFilling(p[1..], s, i + 1, k);
      FillingLiteral(p, s[i], runs, s[i + 1..k]);
      assert s[i..k] == [s[i]] + s[i + 1..k];
    }
  }

  lemma FillingStar(p: string, run: string, rest: seq<string>, x: string)
    requires p != "" && p[0] == '*' && NoNewline(run) && IsFilling(p[1..], rest, x)
    ensures IsFilling(p, [run] + rest, run + x)
  {
    var runs := [run] + rest;
    assert runs[1..] == rest;
    ToLowerConcat(run, Fill(p[1..], rest));
    ToLowerConcat(run, x);
  }

  lemma FillingLiteral(p: string, c: char, runs: seq<string>, x: string)
    requires p != "" && p[0] != '*' && Lower(p[0]) == Lower(c) && IsFilling(p[1..], runs, x)
    ensures IsFilling(p, runs, [c] + x)
  {
    ToLowerConcat([p[0]], Fill(p[1..], runs));
    ToLowerConcat([c], x);
    assert ToLower([c]) == ToLower([p[0]]);
  }

  lemma {:induction false} FillingToSpans(p: string, runs: seq<string>, s: string, i: nat, k: nat)
    requires i <= k <= |s| && IsFilling(p, runs, s[i..k])
    ensures Spans(p, s, i, k)
    decreases |p|
  {
    if p == "" {
      assert |s[i..k]| == |ToLower(s[i..k])| == 0;
    } else if p[0] == '*' {
      FillingUnderStar(p, runs, s[i..k]);
      var m := i + |runs[0]|;
      assert s[i..k][..m - i] == s[i..m] && s[i..k][m - i..] == s[m..k];
      FillingToSpans(p[1..], runs[1..], s, m, k);
    } else {
      FillingUnderLiteral(p, runs, s[i..k]);
      assert s[i..k][1..] == s[i + 1..k];
      FillingToSpans(p[1..], runs, s, i + 1, k);
    }
  }

  /** A filling of a leading star splits the text at the length of its run. */
  lemma FillingUnderStar(p: string, runs: seq<string>, x: string)
    requires p != "" && p[0] == '*' && IsFilling(p, runs, x)
    ensures runs != [] && |runs[0]| <= |x| && NoNewline(x[..|runs[0]|])
    ensures IsFilling(p[1..], runs[1..], x[|runs[0]|..])
  {
    var n, rest := |runs[0]|, Fill(p[1..], runs[1..]);
    ToLowerConcat(runs[0], rest);
    assert |x| == |ToLower(x)| == n + |rest|;
    assert ToLower(x[..n]) == ToLower(x)[..n] == ToLower(runs[0]);
    assert ToLower(x[n..]) == ToLower(x)[n..] == ToLower(rest);
    NewlineFold(runs[0], x[..n]);
  }

  lemma FillingUnderLiteral(p: string, runs: seq<string>, x: string)
    requires p != "" && p[0] != '*' && IsFilling(p, runs, x)
    ensures x != "" && Lower(x[0]) == Lower(p[0]) && IsFilling(p[1..], runs, x[1..])
  {
    var rest := Fill(p[1..], runs);
    ToLowerConcat([p[0]], rest);
    assert |x| == |ToLower(x)| == 1 + |rest|;
    assert ToLower(x)[0] == Lower(x[0]) && ToLower([p[0]])[0] == Lower(p[0]);
    assert ToLower(x[1..]) == ToLower(x)[1..] == ToLower(rest);
  }

  lemma NewlineFold(a: string, b: string)
    requires ToLower(a) == ToLower(b) && NoNewline(a)
    ensures NoNewline(b)
  {
    assert |a| == |ToLower(a)| == |ToLower(b)| == |b|;
    forall n | 0 <= n < |b|
      ensures b[n] != '\n'
    {
      assert ToLower(a)[n] == Lower(a[n]) && ToLower(b)[n] == Lower(b[n]);
    }
  }

  /** The meaning ignores ASCII case on both sides. */
  lemma {:induction false} SpansFold(p: string, q: string, s: string, t: string, i: nat, k: nat)
    requires ToLower(p) == ToLower(q) && ToLower(s) == ToLower(t)
    requires i <= k <= |s|
    ensures |s| == |t| && (Spans(p, s, i, k) <==> Spans(q, t, i, k))
    decreases |p|
  {
    assert |p| == |ToLower(p)| == |ToLower(q)| == |q|;
    assert |s| == |ToLower(s)| == |ToLower(t)| == |t|;
    if p != "" {
      assert Lower(p[0]) == ToLower(p)[0] == ToLower(q)[0] == Lower(q[0]);
      assert ToLower(p[1..]) == ToLower(p)[1..] == ToLower(q)[1..] == ToLower(q[1..]);
      forall m | i <= m <= k
        ensures Spans(p[1..], s, m, k) <==> Spans(q[1..], t, m, k)
        ensures NoNewline(s[i..m]) <==> NoNewline(t[i..m])
      {
        SpansFold(p[1..], q[1..], s, t, m, k);
        assert ToLower(s[i..m]) == ToLower(s)[i..m] == ToLower(t)[i..m] == ToLower(t[i..m]);
        if NoNewline(s[i..m]) { NewlineFold(s[i..m], t[i..m]); }
        if NoNewline(t[i..m]) { NewlineFold(t[i..m], s[i..m]); }
      }
      if i < k {
        assert Lower(s[i]) == ToLower(s)[i] == ToLower(t)[i] == Lower(t[i]);
      }
    }
  }

  lemma GlobFold(p: string, q: string, x: string, y: string)
    requires ToLower(p) == ToLower(q) && ToLower(x) == ToLower(y)
    ensures GlobDenotes(p, x) <==> GlobDenotes(q, y)
  {
    SpansFold(p, q, x, y, 0, |x|);
    SpansDenotes(p, x, 0, |x|);
    SpansDenotes(q, y, 0, |y|);
    assert x[0..|x|] == x && y[0..|y|] == y;
  }

  /** Without a star a glob denotes itself alone, up to case. */
  lemma StarFreeDenotes(p: string, x: string)
    requires '*' !in p
    ensures GlobDenotes(p, x) <==> ToLower(p) == ToLower(x)
  {
    StarFreeFill(p);
    if GlobDenotes(p, x) {
      var runs :| IsFilling(p, runs, x);
      assert runs == [];
    }
    if ToLower(p) == ToLower(x) {
      assert IsFilling(p, [], x);
    }
  }

  lemma {:induction false} StarFreeFill(p: string)
    requires '*' !in p
    ensures Stars(p) == 0 && Fill(p, []) == p
  {
    if p != "" {
      assert p == [p[0]] + p[1..];
      StarFreeFill(p[1..]);
    }
  }

  // ---------- Emitted text, parsed ----------

  /** The characters whose emitted text is one atom with at most its own repetition. */
  predicate Plain(d: Dialect, c: char) {
    match d
    case CommandGlob => true
    case DomainGlob => c == '.' || c == ']' || c == '}' || c !in META
    case Escaped => c != '*'
  }

  predicate AllPlain(d: Dialect, p: string) {
    forall i :: 0 <= i < |p| ==> Plain(d, p[i])
  }

  function TokenRe(c: char): Re {
    if c == '*' then Star(Any) else Lit(c)
  }

  /** The tree of an emitted text followed by the tree of what comes after it. */
  function TokensRe(p: string, tail: Re): Re {
    if p == "" then tail else Cat(TokenRe(p[0]), TokensRe(p[1..], tail))
  }

  lemma EmitNoRepeat(d: Dialect, p: string, tail: string)
    requires AllPlain(d, p) && NoRepeat(tail)
    ensures NoRepeat(EmitText(d, p) + tail)
  {
    if p != "" {
      var t := TokenText(d, p[0]);
      assert Plain(d, p[0]);
      assert (EmitText(d, p) + tail)[0] == t[0];
    } else {
      assert EmitText(d, p) + tail == tail;
    }
  }

  /** `t` begins with one atom and its repetition, of tree `b`, and goes on with `rest`. */
  ghost predicate PieceParses(t: string, b: Re, rest: string) {
    && t != "" && t[0] != ')' && t[0] != '|'
    && var atom := ParseAtom(t);
       atom.Ok? && ParsePostfix(atom.value, atom.rest) == Ok(b, rest)
  }

  lemma ParseCatStep(t: string, b: Re, rest: string)
    requires PieceParses(t, b, rest)
    ensures ParseCat(rest).Ok? ==> ParseCat(t) == Ok(Cat(b, ParseCat(rest).value), ParseCat(rest).rest)
    ensures ParseCat(rest).Invalid? ==> ParseCat(t).Invalid?
  {
  }

  /** One token parses to its own tree, whatever follows, as long as that is no repetition. */
  lemma TokenParses(d: Dialect, c: char, tail: string)
    requires Plain(d, c) && NoRepeat(tail)
    ensures PieceParses(TokenText(d, c) + tail, TokenRe(c), tail)
  {
    var t := TokenText(d, c) + tail;
    if c == '*' {
      assert t[0] == '.' && t[1] == '*';
      if d == CommandGlob {
        assert t[1..][2..] == tail;
        assert t[1..][1] == '?';
      } else {
        assert t[1..][1..] == tail;
        assert |t[1..]| >= 2 ==> t[1..][1] == tail[0];
      }
    } else if |TokenText(d, c)| == 2 {
      assert t[0] == '\\' && t[1] == c && t[2..] == tail;
    } else {
      assert t[0] == c && t[1..] == tail;
    }
  }

  /** An emitted text parses, and to exactly the tree of its tokens. */
  lemma {:induction false} EmitParses(d: Dialect, p: string, tail: string, tailRe: Re)
    requires AllPlain(d, p) && NoRepeat(tail) && ParseCat(tail) == Ok(tailRe, "")
    ensures ParseCat(EmitText(d, p) + tail) == Ok(TokensRe(p, tailRe), "")
    decreases |p|
  {
    if p == "" {
      assert EmitText(d, p) + tail == tail;
    } else {
      var rest := EmitText(d, p[1..]) + tail;
      assert Plain(d, p[0]) && AllPlain(d, p[1..]);
      EmitParses(d, p[1..], tail, tailRe);
      EmitNoRepeat(d, p[1..], tail);
      EmitTextSplit(d, p, tail);
      TokenThenRest(d, p[0], rest, TokensRe(p[1..], tailRe));
    }
  }

  lemma EmitTextSplit(d: Dialect, p: string, tail: string)
    requires p != ""
    ensures EmitText(d, p) + tail == TokenText(d, p[0]) + (EmitText(d, p[1..]) + tail)
  {
  }

  lemma TokenThenRest(d: Dialect, c: char, rest: string, restRe: Re)
    requires Plain(d, c) && NoRepeat(rest) && ParseCat(rest) == Ok(restRe, "")
    ensures ParseCat(TokenText(d, c) + rest) == Ok(Cat(TokenRe(c), restRe), "")
  {
    TokenParses(d, c, rest);
    ParseCatStep(TokenText(d, c) + rest, TokenRe(c), rest);
  }

  // ---------- Parsed text, matched ----------

  lemma CatSplit(a: Re, b: Re, s: string, i: nat, j: nat) returns (k: nat)
    requires i <= j <= |s| && Matches(Cat(a, b), true, s, i, j)
    ensures i <= k <= j && Matches(a, true, s, i, k) && Matches(b, true, s, k, j)
  {
    k :| i <= k <= j && Matches(a, true, s, i, k) && Matches(b, true, s, k, j);
  }

  lemma CatJoin(a: Re, b: Re, s: string, i: nat, k: nat, j: nat)
    requires i <= k <= j <= |s| && Matches(a, true, s, i, k) && Matches(b, true, s, k, j)
    ensures Matches(Cat(a, b), true, s, i, j)
  {
  }

  lemma MatchAt(re: Regexp, s: string, i: nat, j: nat)
    requires i <= j <= |s| && Matches(re.re, re.fold, s, i, j)
    ensures MatchString(re, s)
  {
  }

  lemma MatchSplit(re: Regexp, s: string) returns (i: nat, j: nat)
    requires MatchString(re, s)
    ensures i <= j <= |s| && Matches(re.re, re.fold, s, i, j)
  {
    i, j :| 0 <= i <= j <= |s| && Matches(re.re, re.fold, s, i, j);
  }

  lemma StarSplit(a: Re, s: string, i: nat, j: nat) returns (k: nat)
    requires i < j <= |s| && Matches(Star(a), true, s, i, j)
    ensures i < k <= j && Matches(a, true, s, i, k) && Matches(Star(a), true, s, k, j)
  {
    k :| i < k <= j && Matches(a, true, s, i, k) && Matches(Star(a), true, s, k, j);
  }

  /** Some `s[i..k]` is spanned by the pattern and `s[k..j]` matched by the tail. */
  ghost predicate SpansThen(p: string, tail: Re, s: string, i: nat, j: nat)
    requires i <= j <= |s|
  {
    exists k | i <= k <= j :: Spans(p, s, i, k) && Matches(tail, true, s, k, j)
  }

  /** A token tree matches what its pattern spans, then what the rest matches. */
  lemma {:induction false} TokensMatch(p: string, tail: Re, s: string, i: nat, j: nat)
    requires i <= j <= |s|
    ensures Matches(TokensRe(p, tail), true, s, i, j) <==> SpansThen(p, tail, s, i, j)
    decreases |p|
  {
    if p == "" {
      if Matches(tail, true, s, i, j) {
        assert Spans(p, s, i, i);
      }
    } else {
      var rest := TokensRe(p[1..], tail);
      if Matches(TokensRe(p, tail), true, s, i, j) {
        var m := CatSplit(TokenRe(p[0]), rest, s, i, j);
        TokensMatch(p[1..], tail, s, m, j);
        SpansThenJoin(p, tail, s, i, m, j);
      }
      if SpansThen(p, tail, s, i, j) {
        var m := SpansThenSplit(p, tail, s, i, j);
        TokensMatch(p[1..], tail, s, m, j);
        CatJoin(TokenRe(p[0]), rest, s, i, m, j);
      }
    }
  }

  lemma SpansThenJoin(p: string, tail: Re, s: string, i: nat, m: nat, j: nat)
    requires p != "" && i <= m <= j <= |s|
    requires Matches(TokenRe(p[0]), true, s, i, m) && SpansThen(p[1..], tail, s, m, j)
    ensures SpansThen(p, tail, s, i, j)
  {
    var k :| m <= k <= j && Spans(p[1..], s, m, k) && Matches(tail, true, s, k, j);
    StarAny(true, s, i, m);
    assert Spans(p, s, i, k);
  }

  lemma SpansThenSplit(p: string, tail: Re, s: string, i: nat, j: nat) returns (m: nat)
    requires p != "" && i <= j <= |s| && SpansThen(p, tail, s, i, j)
    ensures i <= m <= j && Matches(TokenRe(p[0]), true, s, i, m) && SpansThen(p[1..], tail, s, m, j)
  {
    var k :| i <= k <= j && Spans(p, s, i, k) && Matches(tail, true, s, k, j);
    if p[0] == '*' {
      m :| i <= m <= k && NoNewline(s[i..m]) && Spans(p[1..], s, m, k);
      StarAny(true, s, i, m);
    } else {
      m := i + 1;
    }
  }
}
