/** Exactly which wildcard domain patterns compile, and exactly which of them mean the glob
    that they are written as: the wildcard branch escapes dots and nothing else. */
module WildcardLimits {
  import opened Prelude
  import opened Regex
  import opened Patterns
  import opened Matcher
  import opened DomainPatterns
  import opened PatternLimits

  // ---------- A light match of any expression ----------

  /** What a byte weighs: a dot and a backslash weigh more than any other. */
  function Heft(c: char): nat {
    if c == '.' || c == '\\' then 3 else 2
  }

  function Mass(t: string): nat {
    if t == "" then 0 else Heft(t[0]) + Mass(t[1..])
  }

  lemma {:induction false} MassConcat(a: string, b: string)
    ensures Mass(a + b) == Mass(a) + Mass(b)
    decreases |a|
  {
    if a == "" {
      assert a + b == b;
    } else {
      assert (a + b)[1..] == a[1..] + b;
      MassConcat(a[1..], b);
    }
  }

  lemma {:induction false} MassFold(a: string, b: string)
    requires ToLower(a) == ToLower(b)
    ensures Mass(a) == Mass(b)
    decreases |a|
  {
    assert |a| == |ToLower(a)| == |ToLower(b)| == |b|;
    if a != "" {
      assert Lower(a[0]) == ToLower(a)[0] == ToLower(b)[0] == Lower(b[0]);
      assert ToLower(a[1..]) == ToLower(a)[1..] == ToLower(b)[1..] == ToLower(b[1..]);
      MassFold(a[1..], b[1..]);
    }
  }

  /** The mass that a match can be cut down to: at most this. A dot of the expression may
      match a light byte. */
  function Cost(r: Re): nat {
    match r
    case Empty => 0
    case Lit(c) => Heft(c)
    case Any => 2
    case Class(_) => 3
    case Begin => 0
    case End => 0
    case Cat(a, b) => Cost(a) + Cost(b)
    case Alt(a, b) => if b == Empty then 0 else if Cost(a) > Cost(b) then Cost(a) else Cost(b)
    case Star(_) => 0
  }

  ghost predicate FitsBetween(r: Re, t: string, x: string, y: string) {
    Matches(r, true, x + t + y, |x|, |x| + |t|)
  }

  /** `r` matches `t` in any surroundings, or in any that respect the ends of the text. */
  ghost predicate Fits(r: Re, t: string, atStart: bool, atEnd: bool) {
    forall x, y :: (atStart ==> x == "") && (atEnd ==> y == "") ==> FitsBetween(r, t, x, y)
  }

  /** Any match can be cut down to one of mass at most `Cost(r)`: stars give up what they
      matched, dots take an `x`, and anchors keep their place. */
  lemma {:induction false} Shrink(r: Re, s: string, i: nat, j: nat) returns (t: string)
    requires i <= j <= |s| && Matches(r, true, s, i, j)
    ensures Mass(t) <= Cost(r) && |t| <= j - i && forall c :: c in t ==> c in s || c == 'x'
    ensures Fits(r, t, i == 0, j == |s|)
    decreases r
  {
    match r
    case Cat(a, b) =>
      var k := CatSplit(a, b, s, i, j);
      var u := Shrink(a, s, i, k);
      var v := Shrink(b, s, k, j);
      t := u + v;
      MassConcat(u, v);
      forall x, y | (i == 0 ==> x == "") && (j == |s| ==> y == "")
        ensures FitsBetween(r, t, x, y)
      {
        CatFits(a, b, u, v, x, y);
      }
    case Alt(a, b) =>
      if b == Empty {
        t := "";
        assert forall x, y :: FitsBetween(Empty, t, x, y) ==> FitsBetween(r, t, x, y);
        assert Fits(Empty, t, true, true);
      } else if Matches(a, true, s, i, j) {
        t := Shrink(a, s, i, j);
        assert forall x, y :: FitsBetween(a, t, x, y) ==> FitsBetween(r, t, x, y);
      } else {
        t := Shrink(b, s, i, j);
        assert forall x, y :: FitsBetween(b, t, x, y) ==> FitsBetween(r, t, x, y);
      }
    case Empty => t := "";
    case Begin => t := "";
    case End => t := "";
    case Star(_) => t := "";
    case Any => t := OneByte('x');
    case Lit(_) => t := OneByte(s[i]);
    case Class(_) => t := OneByte(s[i]);
  }

  lemma OneByte(c: char) returns (t: string)
    ensures t == [c] && Mass(t) == Heft(c)
    ensures forall x: string, y: string :: (x + t + y)[|x|] == c
  {
    t := [c];
    assert t[1..] == "";
  }

  lemma CatFits(a: Re, b: Re, u: string, v: string, x: string, y: string)
    requires FitsBetween(a, u, x, v + y) && FitsBetween(b, v, x + u, y)
    ensures FitsBetween(Cat(a, b), u + v, x, y)
  {
    assert x + u + (v + y) == x + (u + v) + y == x + u + v + y;
    CatJoin(a, b, x + (u + v) + y, |x|, |x| + |u|, |x| + |u| + |v|);
  }

  // ---------- What parsed text costs ----------

  /** The mass of the match that a text stands for, at most: a starred dot, a starred escape,
      anchors, operators and group marks stand for nothing; a class counts its brackets. */
  function Weight(t: string): nat {
    if t == "" then 0
    else if t[0] == '\\' && |t| >= 2 then (if |t| >= 3 && t[2] == '*' then 0 else Heft(t[1])) + Weight(t[2..])
    else if t[0] == '.' then (if |t| >= 2 && t[1] == '*' then 0 else 2) + Weight(t[1..])
    else ByteWeight(t[0]) + Weight(t[1..])
  }

  function ByteWeight(c: char): nat {
    if c == '[' then 1 else if c == '*' || (c in META && c != ']' && c != '}') then 0 else 2
  }

  /** A starred atom costs nothing. */
  function AtomCost(a: Re, rest: string): nat {
    if rest != "" && rest[0] == '*' then 0 else Cost(a)
  }

  lemma {:induction false} ClassWeight(t: string, first: bool)
    ensures ParseClass(t, first).Ok? ==> 2 + Weight(ParseClass(t, first).rest) <= Weight(t)
    decreases |t|
  {
    if ParseClass(t, first).Ok? && !(t[0] == ']' && !first) {
      assert Weight(t[1..]) <= Weight(t);
      if |t| >= 3 && t[1] == '-' && t[2] != ']' {
        assert t[1..][1..] == t[2..] && t[2..][1..] == t[3..];
        assert Weight(t[3..]) <= Weight(t[2..]) <= Weight(t[1..]);
        ClassWeight(t[3..], false);
      } else {
        ClassWeight(t[1..], false);
      }
    }
  }

  lemma {:induction false} AtomWeight(t: string)
    requires t != ""
    ensures var p := ParseAtom(t); p.Ok? ==> AtomCost(p.value, p.rest) + Weight(p.rest) <= Weight(t)
    decreases |t|, 0
  {
    if t[0] == '(' {
      AltWeight(t[1..]);
      GroupWeight(t);
    } else if t[0] == '[' {
      ClassWeight(t[1..], true);
    }
  }

  lemma GroupWeight(t: string)
    requires t != "" && t[0] == '('
    requires var p := ParseAlt(t[1..]); p.Ok? ==> Cost(p.value) + Weight(p.rest) <= Weight(t[1..])
    ensures var p := ParseAtom(t); p.Ok? ==> AtomCost(p.value, p.rest) + Weight(p.rest) <= Weight(t)
  {
    var p := ParseAlt(t[1..]);
    if ParseAtom(t).Ok? {
      assert ParseAtom(t) == Ok(p.value, p.rest[1..]);
      assert Weight(p.rest) == Weight(p.rest[1..]);
    }
  }

  lemma PostfixWeight(a: Re, t: string)
    ensures var p := ParsePostfix(a, t); p.Ok? ==> Cost(p.value) + Weight(p.rest) <= AtomCost(a, t) + Weight(t)
  {
    if ParsePostfix(a, t).Ok? && !NoRepeat(t) {
      assert |t| >= 2 ==> t[1..][1..] == t[2..];
      assert Weight(t) == Weight(t[1..]);
      assert Cost(Repeated(t[0], a)) <= AtomCost(a, t);
    }
  }

  lemma {:induction false} CatWeight(t: string)
    ensures var p := ParseCat(t); p.Ok? ==> Cost(p.value) + Weight(p.rest) <= Weight(t)
    decreases |t|, 1
  {
    if ParseCat(t).Ok? && t != "" && t[0] != ')' && t[0] != '|' {
      var a := ParseAtom(t);
      AtomWeight(t);
      PostfixWeight(a.value, a.rest);
      CatWeight(ParsePostfix(a.value, a.rest).rest);
    }
  }

  lemma {:induction false} AltWeight(t: string)
    ensures var p := ParseAlt(t); p.Ok? ==> Cost(p.value) + Weight(p.rest) <= Weight(t)
    decreases |t|, 2
  {
    CatWeight(t);
    var p := ParseCat(t);
    if p.Ok? && p.rest != "" && p.rest[0] == '|' {
      AltWeight(p.rest[1..]);
    }
  }

  /** The text of a wildcard pattern costs at most the mass of its glob, and less as soon as
      one character is not plain. */
  lemma {:induction false} EmitWeight(p: string)
    requires '{' !in p
    ensures Weight(EmitText(DomainGlob, p) + "$") <= Mass(Literals(p))
    ensures !AllPlain(DomainGlob, p) ==> Weight(EmitText(DomainGlob, p) + "$") < Mass(Literals(p))
    decreases |p|
  {
    if p == "" {
      assert "$"[1..] == "" && EmitText(DomainGlob, p) + "$" == "$";
    } else if p[0] == '\\' {
      LiteralsMass(p);
      if |p| == 1 {
        LoneBackslash(p);
      } else {
        EmitWeight(p[2..]);
        BackslashWeight(p);
      }
    } else {
      var rest := EmitText(DomainGlob, p[1..]) + "$";
      EmitWeight(p[1..]);
      LiteralsMass(p);
      RestStart(p[1..]);
      TokenWeight(p[0], rest);
      EmitTextSplit(DomainGlob, p, "$");
      if Plain(DomainGlob, p[0]) && AllPlain(DomainGlob, p[1..]) {
        PlainFirst(p);
      }
    }
  }

  lemma LiteralsMass(p: string)
    requires p != ""
    ensures Mass(Literals(p)) == (if p[0] == '*' then 0 else Heft(p[0])) + Mass(Literals(p[1..]))
  {
    if p[0] == '*' {
      assert Literals(p) == Literals(p[1..]);
    } else {
      assert Literals(p)[1..] == Literals(p[1..]);
    }
  }

  lemma RestStart(p: string)
    ensures (EmitText(DomainGlob, p) + "$")[0] != '*'
  {
    if p != "" {
      EmitTextSplit(DomainGlob, p, "$");
    }
  }

  /** A backslash at the end escapes the end anchor. */
  lemma LoneBackslash(p: string)
    requires p == "\\"
    ensures Weight(EmitText(DomainGlob, p) + "$") == 2 && Mass(Literals(p)) == 3
  {
    assert p[1..] == "" && Literals(p) == "\\";
    assert EmitText(DomainGlob, p) + "$" == "\\$";
    assert "\\$"[2..] == "" && "\\"[1..] == "";
  }

  /** Any other backslash escapes what the next character is emitted as: the dot of a star,
      the backslash of a dot, or the character itself. */
  lemma BackslashWeight(p: string)
    requires |p| >= 2 && p[0] == '\\' && p[1] != '{'
    ensures Weight(EmitText(DomainGlob, p) + "$")
          < Mass(Literals(p)) - Mass(Literals(p[2..])) + Weight(EmitText(DomainGlob, p[2..]) + "$")
  {
    var q, rest := p[1..], EmitText(DomainGlob, p[2..]) + "$";
    assert q[1..] == p[2..] && q[0] == p[1];
    EmitTextSplit(DomainGlob, p, "$");
    EmitTextSplit(DomainGlob, q, "$");
    RestStart(p[2..]);
    LiteralsMass(p);
    LiteralsMass(q);
    EscapedTokenWeight(q[0], rest);
  }

  lemma EscapedTokenWeight(c: char, rest: string)
    requires c != '{' && rest != "" && rest[0] != '*'
    ensures Weight("\\" + (TokenText(DomainGlob, c) + rest)) < 3 + (if c == '*' then 0 else Heft(c)) + Weight(rest)
  {
    var t := "\\" + (TokenText(DomainGlob, c) + rest);
    if c == '*' {
      assert t[1] == '.' && t[2] == '*' && t[2..] == "*" + rest && ("*" + rest)[1..] == rest;
    } else if c == '.' {
      assert t[1] == '\\' && t[2] == '.' && t[2..] == "." + rest && ("." + rest)[1..] == rest;
      assert ("." + rest)[1] == rest[0];
    } else {
      assert t[1] == c && t[2..] == rest && t[2] == rest[0];
    }
  }

  lemma PlainFirst(p: string)
    requires p != "" && Plain(DomainGlob, p[0]) && AllPlain(DomainGlob, p[1..])
    ensures AllPlain(DomainGlob, p)
  {
    assert forall i :: 0 < i < |p| ==> p[i] == p[1..][i - 1];
  }

  lemma TokenWeight(c: char, rest: string)
    requires c != '\\' && c != '{' && rest != "" && rest[0] != '*'
    ensures var w := Weight(TokenText(DomainGlob, c) + rest) - Weight(rest);
            var m := if c == '*' then 0 else Heft(c);
            w <= m && (!Plain(DomainGlob, c) ==> w < m)
  {
    var t := TokenText(DomainGlob, c) + rest;
    if c == '*' {
      assert t[0] == '.' && t[1] == '*' && t[1..] == "*" + rest && ("*" + rest)[1..] == rest;
    } else if c == '.' {
      assert t[0] == '\\' && t[1] == '.' && t[2..] == rest && t[2] == rest[0];
    } else {
      assert t[0] == c && t[1..] == rest;
    }
  }

  // ---------- Faithful wildcards ----------

  /** The compiled tree of a wildcard pattern, if it compiles, is that cheap. */
  lemma CompiledCost(pattern: string)
    requires '*' in pattern && !HasPrefix(pattern, "*.") && '{' !in pattern
    requires !AllPlain(DomainGlob, pattern) && CompileDomain(pattern).Success?
    ensures CompileDomain(pattern).value.fold
    ensures Cost(CompileDomain(pattern).value.re) < Mass(Literals(ToLower(pattern)))
  {
    var p := ToLower(pattern);
    var body := EmitText(DomainGlob, p) + "$";
    PlainFold(DomainGlob, pattern);
    LowerKeeps(pattern, '{');
    EmitWeight(p);
    assert DomainText(pattern) == FOLD_FLAG + ("^" + body);
    CompiledParse("^" + body);
    AltWeight("^" + body);
    AnchorWeight(body);
  }

  lemma AnchorWeight(body: string)
    ensures Weight("^" + body) == Weight(body)
  {
    assert ("^" + body)[1..] == body;
  }

  lemma CompiledParse(body: string)
    requires Compile(FOLD_FLAG + body).Success?
    ensures var re := Compile(FOLD_FLAG + body).value; re.fold && ParseAlt(body) == Ok(re.re, "")
  {
    assert (FOLD_FLAG + body)[4..] == body;
  }

  lemma LowerKeeps(p: string, c: char)
    requires c !in p && !('a' <= c <= 'z')
    ensures c !in ToLower(p)
  {
    assert forall i :: 0 <= i < |p| ==> ToLower(p)[i] == Lower(p[i]) && p[i] in p;
  }

  /** A wildcard pattern without an opening brace means its glob, on every domain, exactly
      when every character is plain: none of `+ ? ^ $ ( ) [ |` and no backslash. Otherwise it
      does not compile, or misses the domain that spells it without its stars, or matches one
      lighter than anything that the glob denotes. */
  lemma WildcardFaithfulExactly(pattern: string)
    requires '*' in pattern && !HasPrefix(pattern, "*.") && '{' !in pattern
    ensures Faithful(pattern) <==> AllPlain(DomainGlob, pattern)
  {
    if AllPlain(DomainGlob, pattern) {
      WholeCorrect(pattern, "");
      forall d: string
        ensures MatchString(CompileDomain(pattern).value, ToLower(d)) <==> DomainDenotes(pattern, d)
      {
        WholeCorrect(pattern, d);
      }
    } else if CompileDomain(pattern).Success? {
      WildcardDisagrees(pattern);
    }
  }

  lemma WildcardDisagrees(pattern: string)
    requires '*' in pattern && !HasPrefix(pattern, "*.") && '{' !in pattern
    requires !AllPlain(DomainGlob, pattern) && CompileDomain(pattern).Success?
    ensures exists d: string :: MatchString(CompileDomain(pattern).value, ToLower(d)) != DomainDenotes(pattern, d)
  {
    var re, w := CompileDomain(pattern).value, Literals(pattern);
    BlanksDenote(pattern, w);
    if MatchString(re, ToLower(w)) {
      CompiledCost(pattern);
      var t := LightMatch(re, ToLower(w));
      LowerInside(t, w);
      ToLowerIdempotent(pattern);
      GlobFold(pattern, ToLower(pattern), t, t);
      DenotedMass(ToLower(pattern), t);
      assert MatchString(re, ToLower(t)) && !DomainDenotes(pattern, t);
    } else {
      assert DomainDenotes(pattern, w);
    }
  }

  /** Nothing that a glob denotes is lighter than the glob without its stars. */
  lemma DenotedMass(p: string, x: string)
    ensures GlobDenotes(p, x) ==> Mass(x) >= Mass(Literals(p))
  {
    if runs :| IsFilling(p, runs, x) {
      FillMass(p, runs);
      MassFold(Fill(p, runs), x);
    }
  }

  lemma {:induction false} FillMass(p: string, runs: seq<string>)
    requires |runs| == Stars(p)
    ensures Mass(Fill(p, runs)) >= Mass(Literals(p))
    decreases |p|
  {
    if p != "" {
      LiteralsMass(p);
      if p[0] == '*' {
        FillMass(p[1..], runs[1..]);
        MassConcat(runs[0], Fill(p[1..], runs[1..]));
      } else {
        FillMass(p[1..], runs);
        assert Fill(p, runs)[1..] == Fill(p[1..], runs);
      }
    }
  }

  lemma LightMatch(re: Regexp, s: string) returns (t: string)
    requires re.fold && MatchString(re, s)
    ensures Mass(t) <= Cost(re.re) && MatchString(re, t) && forall c :: c in t ==> c in s || c == 'x'
  {
    var i, j := MatchSplit(re, s);
    t := Shrink(re.re, s, i, j);
    assert FitsBetween(re.re, t, "", "");
    assert "" + t + "" == t;
    MatchAt(re, t, 0, |t|);
  }

  lemma LowerInside(t: string, w: string)
    requires forall c :: c in t ==> c in ToLower(w) || c == 'x'
    ensures ToLower(t) == t
  {
    forall i | 0 <= i < |t|
      ensures Lower(t[i]) == t[i]
    {
      assert t[i] in t;
      if t[i] in ToLower(w) {
        var k :| 0 <= k < |w| && ToLower(w)[k] == t[i];
        assert t[i] == Lower(w[k]);
      }
    }
  }

  /** All three branches together: a domain pattern means what is documented, on every
      domain, exactly when it is completely escaped. */
  lemma DomainFaithfulExactly(pattern: string)
    requires '*' in pattern && !HasPrefix(pattern, "*.") ==> '{' !in pattern
    ensures Faithful(pattern) <==> DomainPlain(pattern)
  {
    if HasPrefix(pattern, "*.") {
      SubdomainFaithfulExactly(pattern);
    } else if '*' in pattern {
      WildcardFaithfulExactly(pattern);
    } else {
      WholeCorrect(pattern, "");
      forall d: string
        ensures MatchString(CompileDomain(pattern).value, ToLower(d)) <==> DomainDenotes(pattern, d)
      {
        WholeCorrect(pattern, d);
      }
    }
  }

  // ---------- Which wildcards compile ----------

  predicate IsOp(c: char) {
    c == '+' || c == '?'
  }

  /** Plain characters, and of the rest only operators and anchors. */
  predicate Repeatable(p: string) {
    forall i :: 0 <= i < |p| ==> Plain(DomainGlob, p[i]) || p[i] in "+?^$"
  }

  /** Position `i` is a repetition of a repetition: a plus behind a star, a plus or a question
      mark; or a question mark that is not the one lazy mark an operator may have, a star
      being an operator that has none yet. */
  predicate Nested(p: string, i: nat)
    requires i < |p|
  {
    || (p[i] == '+' && i >= 1 && (p[i - 1] == '*' || IsOp(p[i - 1])))
    || (p[i] == '?' && i >= 2 && IsOp(p[i - 1]) && (p[i - 2] == '*' || IsOp(p[i - 2])))
  }

  predicate WellRepeated(p: string) {
    forall i :: 0 <= i < |p| ==> !Nested(p, i)
  }

  /** What the emitted rest of a pattern begins with. */
  lemma RestHead(q: string)
    requires Repeatable(q)
    ensures var u := EmitText(DomainGlob, q) + "$";
            && (u[0] == '?' <==> q != "" && q[0] == '?') && (u[0] == '+' <==> q != "" && q[0] == '+')
            && u[0] != '*' && u[0] != '{'
            && (q != "" && IsOp(q[0]) ==> u[1..] == EmitText(DomainGlob, q[1..]) + "$")
  {
    if q != "" {
      var t, more := TokenText(DomainGlob, q[0]), EmitText(DomainGlob, q[1..]) + "$";
      EmitTextSplit(DomainGlob, q, "$");
      assert Plain(DomainGlob, q[0]) || q[0] in "+?^$";
    }
  }

  /** How many characters of the pattern one atom takes, with its operators. */
  function PieceLength(p: string): (n: nat)
    requires p != ""
    ensures 1 <= n <= |p|
  {
    if p[0] == '*' then if |p| >= 2 && p[1] == '?' then 2 else 1
    else if |p| >= 2 && IsOp(p[1]) then if |p| >= 3 && p[2] == '?' then 3 else 2
    else 1
  }

  predicate StartsWithOp(q: string) {
    q != "" && IsOp(q[0])
  }

  /** After an operator, a lazy mark if there is one; then another operator is an error. */
  lemma OperatorParses(op: char, a: Re, q: string)
    requires IsRepeatOp(op) && Repeatable(q)
    ensures var n := if q != "" && q[0] == '?' then 1 else 0;
            var p := ParsePostfix(a, [op] + (EmitText(DomainGlob, q) + "$"));
            if StartsWithOp(q[n..]) then p.Invalid?
            else p == Ok(Repeated(op, a), EmitText(DomainGlob, q[n..]) + "$")
  {
    var u := EmitText(DomainGlob, q) + "$";
    var t := [op] + u;
    RestHead(q);
    assert t[1..] == u && t[1] == u[0];
    if q != "" && q[0] == '?' {
      assert t[2..] == u[1..];
      RestHead(q[1..]);
    } else {
      assert q[0..] == q;
    }
  }

  function AtomOf(c: char): Re {
    if c == '*' then Any else if c == '^' then Begin else if c == '$' then End else Lit(c)
  }

  lemma AtomParses(c: char, tail: string)
    requires (Plain(DomainGlob, c) || c in "^$") && !IsOp(c)
    ensures var t := TokenText(DomainGlob, c) + tail;
            t[0] !in ")|" && ParseAtom(t) == Ok(AtomOf(c), if c == '*' then "*" + tail else tail)
  {
    var t := TokenText(DomainGlob, c) + tail;
    if c == '*' {
      assert t[0] == '.' && t[1..] == "*" + tail;
    } else if c == '.' {
      assert t[0] == '\\' && t[1] == '.' && t[2..] == tail;
    } else {
      assert t[0] == c && t[1..] == tail;
    }
  }

  lemma RefusedPiece(t: string, a: Re, rest: string)
    requires t != "" && t[0] !in ")|" && ParseAtom(t) == Ok(a, rest) && ParsePostfix(a, rest).Invalid?
    ensures ParseCat(t).Invalid?
  {
  }

  /** One atom with its operators: parsed, or refused for the operator behind them. */
  ghost predicate PieceOutcome(t: string, r: Re, q: string) {
    if StartsWithOp(q) then ParseCat(t).Invalid? else PieceParses(t, r, EmitText(DomainGlob, q) + "$")
  }

  /** An atom in front of an operator. */
  lemma RepeatedPiece(t: string, a: Re, op: char, q: string)
    requires IsRepeatOp(op) && Repeatable(q)
    requires t != "" && t[0] !in ")|" && ParseAtom(t) == Ok(a, [op] + (EmitText(DomainGlob, q) + "$"))
    ensures PieceOutcome(t, Repeated(op, a), q[if q != "" && q[0] == '?' then 1 else 0..])
  {
    OperatorParses(op, a, q);
    if StartsWithOp(q[if q != "" && q[0] == '?' then 1 else 0..]) {
      RefusedPiece(t, a, [op] + (EmitText(DomainGlob, q) + "$"));
    }
  }

  lemma StarPieceOutcome(p: string)
    requires p != "" && p[0] == '*' && Repeatable(p)
    ensures PieceOutcome(EmitText(DomainGlob, p) + "$", Star(Any), p[PieceLength(p)..])
  {
    var q := p[1..];
    var t, u := EmitText(DomainGlob, p) + "$", EmitText(DomainGlob, q) + "$";
    EmitTextSplit(DomainGlob, p, "$");
    assert ['*'] + u == "*" + u;
    AtomParses('*', u);
    RepeatedPiece(t, Any, '*', q);
    assert q[0..] == q && (|q| >= 1 ==> q[1..] == p[2..]);
  }

  lemma OperatorPieceOutcome(p: string)
    requires |p| >= 2 && p[0] != '*' && !IsOp(p[0]) && IsOp(p[1]) && Repeatable(p)
    ensures PieceOutcome(EmitText(DomainGlob, p) + "$", Repeated(p[1], AtomOf(p[0])), p[PieceLength(p)..])
  {
    var t := EmitText(DomainGlob, p) + "$";
    OrdinaryAtom(p);
    OperatorText(p[1..]);
    assert p[1..][1..] == p[2..];
    RepeatedPiece(t, AtomOf(p[0]), p[1], p[2..]);
    OperatorLength(p);
  }

  lemma OrdinaryAtom(p: string)
    requires p != "" && p[0] != '*' && !IsOp(p[0]) && Repeatable(p)
    ensures var t := EmitText(DomainGlob, p) + "$";
            t[0] !in ")|" && ParseAtom(t) == Ok(AtomOf(p[0]), EmitText(DomainGlob, p[1..]) + "$")
  {
    EmitTextSplit(DomainGlob, p, "$");
    assert Plain(DomainGlob, p[0]) || p[0] in "+?^$";
    AtomParses(p[0], EmitText(DomainGlob, p[1..]) + "$");
  }

  lemma OperatorText(q: string)
    requires q != "" && IsOp(q[0])
    ensures EmitText(DomainGlob, q) + "$" == [q[0]] + (EmitText(DomainGlob, q[1..]) + "$")
  {
    EmitTextSplit(DomainGlob, q, "$");
    assert TokenText(DomainGlob, q[0]) == [q[0]];
  }

  lemma OperatorLength(p: string)
    requires |p| >= 2 && p[0] != '*' && IsOp(p[1])
    ensures var q := p[2..]; q[if q != "" && q[0] == '?' then 1 else 0..] == p[PieceLength(p)..]
  {
  }

  lemma BarePieceOutcome(p: string)
    requires p != "" && p[0] != '*' && !IsOp(p[0]) && !StartsWithOp(p[1..]) && Repeatable(p)
    ensures PieceOutcome(EmitText(DomainGlob, p) + "$", AtomOf(p[0]), p[PieceLength(p)..])
  {
    OrdinaryAtom(p);
    RestHead(p[1..]);
    assert |p| >= 2 ==> p[1..][0] == p[1];
  }

  lemma AnyPieceOutcome(p: string) returns (r: Re)
    requires p != "" && !IsOp(p[0]) && Repeatable(p)
    ensures PieceOutcome(EmitText(DomainGlob, p) + "$", r, p[PieceLength(p)..])
  {
    if p[0] == '*' {
      r := Star(Any);
      StarPieceOutcome(p);
    } else if StartsWithOp(p[1..]) {
      r := Repeated(p[1], AtomOf(p[0]));
      OperatorPieceOutcome(p);
    } else {
      r := AtomOf(p[0]);
      BarePieceOutcome(p);
    }
  }

  /** Nesting is a matter of what follows the piece. */
  lemma NestedBehindPiece(p: string)
    requires p != "" && !IsOp(p[0])
    ensures WellRepeated(p) <==> !StartsWithOp(p[PieceLength(p)..]) && WellRepeated(p[PieceLength(p)..])
  {
    var n := PieceLength(p);
    var q := p[n..];
    assert forall i :: 0 <= i < |q| ==> q[i] == p[n + i];
    assert forall i :: 0 <= i < n ==> !Nested(p, i);
    if StartsWithOp(q) {
      assert Nested(p, n);
    } else {
      forall i | 0 <= i < |q|
        ensures Nested(q, i) <==> Nested(p, n + i)
      {
      }
      if WellRepeated(q) {
        forall i | 0 <= i < |p|
          ensures !Nested(p, i)
        {
          if i >= n {
            assert !Nested(q, i - n);
          }
        }
      }
      if WellRepeated(p) {
        forall i | 0 <= i < |q|
          ensures !Nested(q, i)
        {
          assert !Nested(p, n + i);
        }
      }
    }
  }

  lemma {:induction false} RepeatedParses(p: string)
    requires Repeatable(p) && !StartsWithOp(p)
    ensures var c := ParseCat(EmitText(DomainGlob, p) + "$");
            if WellRepeated(p) then c.Ok? && c.rest == "" else c.Invalid?
    decreases |p|
  {
    if p == "" {
      TailParses();
      assert EmitText(DomainGlob, p) + "$" == "$";
    } else {
      var q := p[PieceLength(p)..];
      var r := AnyPieceOutcome(p);
      NestedBehindPiece(p);
      if !StartsWithOp(q) {
        RepeatedParses(q);
        ParseCatStep(EmitText(DomainGlob, p) + "$", r, EmitText(DomainGlob, q) + "$");
      }
    }
  }

  lemma RepeatableFold(p: string)
    ensures Repeatable(ToLower(p)) <==> Repeatable(p)
  {
    var q := ToLower(p);
    forall i | 0 <= i < |p|
      ensures Plain(DomainGlob, q[i]) || q[i] in "+?^$" <==> Plain(DomainGlob, p[i]) || p[i] in "+?^$"
    {
      assert q[i] == Lower(p[i]);
    }
  }

  lemma WellRepeatedFold(p: string)
    ensures WellRepeated(ToLower(p)) <==> WellRepeated(p)
  {
    var q := ToLower(p);
    assert forall i :: 0 <= i < |p| ==> q[i] == Lower(p[i]);
    assert forall i :: 0 <= i < |p| ==> (Nested(q, i) <==> Nested(p, i));
  }

  /** The anchor in front may carry the operators that the pattern begins with. */
  lemma NestedBehindAnchor(p: string)
    ensures WellRepeated("^" + p) <==> WellRepeated(p)
  {
    var q := "^" + p;
    assert forall i :: 0 <= i < |p| ==> q[i + 1] == p[i];
    assert forall i :: 0 <= i < |p| ==> (Nested(q, i + 1) <==> Nested(p, i));
    assert !Nested(q, 0);
    if WellRepeated(p) {
      forall i | 0 <= i < |q|
        ensures !Nested(q, i)
      {
        if i > 0 {
          assert !Nested(p, i - 1);
        }
      }
    }
    if WellRepeated(q) {
      forall i | 0 <= i < |p|
        ensures !Nested(p, i)
      {
        assert !Nested(q, i + 1);
      }
    }
  }

  /** Which wildcard patterns compile, when `+ ? ^ $` are their only unescaped characters:
      those in which nothing repeats a repetition. A rule list with any other fails to load
      as a whole. */
  lemma WildcardCompilesExactly(pattern: string)
    requires '*' in pattern && !HasPrefix(pattern, "*.") && Repeatable(pattern)
    ensures CompileDomain(pattern).Success? <==> WellRepeated(pattern)
    ensures CompileDomain(pattern).Failure? ==> CompileDomain(pattern) == Failure(Malformed)
  {
    var p := ToLower(pattern);
    var body := "^" + (EmitText(DomainGlob, p) + "$");
    PlainFold(DomainGlob, pattern);
    RepeatableFold(pattern);
    WellRepeatedFold(pattern);
    NestedBehindAnchor(p);
    AnchoredText(p);
    assert Repeatable("^" + p) by {
      assert forall i :: 0 < i < |"^" + p| ==> ("^" + p)[i] == p[i - 1];
    }
    RepeatedParses("^" + p);
    assert DomainText(pattern) == FOLD_FLAG + body;
    CompileOutcome(body);
  }

  /** `*$` compiles, but does not mean the domains that end in a dollar sign. */
  lemma UnescapedDollar()
    ensures CompileDomain("*$").Success? && !Faithful("*$")
  {
    assert !Plain(DomainGlob, "*$"[1]);
    WildcardFaithfulExactly("*$");
    WildcardCompilesExactly("*$");
  }

  /** `*+` does not compile, and a rule list with it fails to load. */
  lemma UnescapedPlusMalformed()
    ensures CompileDomain("*+") == Failure(Malformed)
  {
    assert Nested("*+", 1);
    WildcardCompilesExactly("*+");
  }

  lemma AnchoredText(p: string)
    ensures EmitText(DomainGlob, "^" + p) + "$" == "^" + (EmitText(DomainGlob, p) + "$")
  {
    assert ("^" + p)[1..] == p;
    assert TokenText(DomainGlob, '^') == "^";
  }
}
