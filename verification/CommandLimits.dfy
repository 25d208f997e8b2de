/** Where compiled command patterns stop meaning what the documentation says, exactly: a
    newline under a star. */
module CommandLimits {
  import opened Prelude
  import opened Regex
  import opened Patterns
  import opened Matcher
  import opened PatternLimits

  ghost predicate IsFreeFilling(p: string, runs: seq<string>, x: string) {
    |runs| == Stars(p) && ToLower(Fill(p, runs)) == ToLower(x)
  }

  /** The documented reading: a star is any run of characters at all. */
  ghost predicate DocumentedAt(pattern: string, cmd: string, i: nat, j: nat)
    requires i <= j <= |cmd|
  {
    exists runs :: IsFreeFilling(pattern, runs, cmd[i..j])
  }

  ghost predicate Documented(pattern: string, cmd: string) {
    exists i, j :: 0 <= i <= j <= |cmd| && DocumentedAt(pattern, cmd, i, j)
  }

  lemma {:induction false} RunsInside(p: string, runs: seq<string>)
    requires |runs| == Stars(p) && NoNewline(Fill(p, runs))
    ensures forall r :: r in runs ==> NoNewline(r)
    decreases |p|
  {
    if p != "" {
      if p[0] == '*' {
        RunsInside(p[1..], runs[1..]);
        assert Fill(p, runs) == runs[0] + Fill(p[1..], runs[1..]);
      } else {
        RunsInside(p[1..], runs);
        assert Fill(p, runs) == [p[0]] + Fill(p[1..], runs);
      }
    }
  }

  /** On commands without a newline the code meets the documentation, for every pattern. */
  lemma DocumentedWithoutNewline(pattern: string, cmd: string)
    requires NoNewline(cmd)
    ensures CommandDenotes(pattern, cmd) <==> Documented(pattern, cmd)
  {
    if CommandDenotes(pattern, cmd) {
      var i, j :| 0 <= i <= j <= |cmd| && GlobDenotes(pattern, cmd[i..j]);
      var runs :| IsFilling(pattern, runs, cmd[i..j]);
      assert IsFreeFilling(pattern, runs, cmd[i..j]);
      assert DocumentedAt(pattern, cmd, i, j);
    }
    if Documented(pattern, cmd) {
      var i, j :| 0 <= i <= j <= |cmd| && DocumentedAt(pattern, cmd, i, j);
      var runs :| IsFreeFilling(pattern, runs, cmd[i..j]);
      assert NoNewline(cmd[i..j]);
      NewlineFold(cmd[i..j], Fill(pattern, runs));
      RunsInside(pattern, runs);
      assert IsFilling(pattern, runs, cmd[i..j]);
    }
  }

  // ---------- When every command agrees ----------

  /** An ordinary character other than a newline, or the first of two adjacent newlines. */
  predicate HeavyAt(q: string, i: nat)
    requires i < |q|
  {
    (q[i] != '*' && q[i] != '\n') || (q[i] == '\n' && i + 1 < |q| && q[i + 1] == '\n')
  }

  predicate Heavy(q: string) {
    exists i :: 0 <= i < |q| && HeavyAt(q, i)
  }

  /** Star `at` has on either side something that a newline alone cannot stand in for. */
  predicate Separates(p: string, at: nat) {
    at < |p| && p[at] == '*' && Heavy(p[..at]) && Heavy(p[at + 1..])
  }

  lemma LightSlice(q: string, a: nat, b: nat)
    requires a <= b <= |q| && !Heavy(q)
    ensures !Heavy(q[a..b])
  {
    forall i | 0 <= i < |q[a..b]|
      ensures !HeavyAt(q[a..b], i)
    {
      assert !HeavyAt(q, a + i);
    }
  }

  function Newlines(s: string): nat {
    if s == "" then 0 else (if s[0] == '\n' then 1 else 0) + Newlines(s[1..])
  }

  lemma {:induction false} NewlinesConcat(a: string, b: string)
    ensures Newlines(a + b) == Newlines(a) + Newlines(b)
    decreases |a|
  {
    if a == "" {
      assert a + b == b;
    } else {
      assert (a + b)[1..] == a[1..] + b;
      NewlinesConcat(a[1..], b);
    }
  }

  lemma {:induction false} NewlinesFold(a: string, b: string)
    requires ToLower(a) == ToLower(b)
    ensures Newlines(a) == Newlines(b)
    decreases |a|
  {
    assert |a| == |ToLower(a)| == |ToLower(b)| == |b|;
    if a != "" {
      assert Lower(a[0]) == ToLower(a)[0] == ToLower(b)[0] == Lower(b[0]);
      assert ToLower(a[1..]) == ToLower(a)[1..] == ToLower(b)[1..] == ToLower(b[1..]);
      NewlinesFold(a[1..], b[1..]);
    }
  }

  /** A filling has the pattern's newlines, and more only if a run has. */
  lemma {:induction false} FillNewlines(p: string, runs: seq<string>)
    requires |runs| == Stars(p)
    ensures Newlines(Fill(p, runs)) >= Newlines(p)
    ensures (forall r :: r in runs ==> NoNewline(r)) ==> Newlines(Fill(p, runs)) == Newlines(p)
    decreases |p|
  {
    if p != "" {
      if p[0] == '*' {
        FillNewlines(p[1..], runs[1..]);
        assert runs[0] in runs && forall r :: r in runs[1..] ==> r in runs;
        NewlinesConcat(runs[0], Fill(p[1..], runs[1..]));
        NoNewlineCount(runs[0]);
      } else {
        FillNewlines(p[1..], runs);
        assert ([p[0]] + Fill(p[1..], runs))[1..] == Fill(p[1..], runs);
      }
    }
  }

  lemma {:induction false} NoNewlineCount(s: string)
    ensures NoNewline(s) ==> Newlines(s) == 0
  {
    if s != "" {
      NoNewlineCount(s[1..]);
    }
  }

  lemma {:induction false} SpansConcat(p: string, q: string, s: string, i: nat, k: nat, j: nat)
    requires i <= k <= j <= |s| && Spans(p, s, i, k) && Spans(q, s, k, j)
    ensures Spans(p + q, s, i, j)
    decreases |p|
  {
    if p == "" {
      assert p + q == q;
    } else {
      assert (p + q)[1..] == p[1..] + q;
      if p[0] == '*' {
        var m :| i <= m <= k && NoNewline(s[i..m]) && Spans(p[1..], s, m, k);
        SpansConcat(p[1..], q, s, m, k, j);
      } else {
        SpansConcat(p[1..], q, s, i + 1, k, j);
      }
    }
  }

  lemma {:induction false} LastNewline(s: string, e: nat) returns (q: nat)
    requires e <= |s| && Newlines(s[..e]) > 0
    ensures q < e && s[q] == '\n' && NoNewline(s[q + 1..e]) && Newlines(s[..e]) == Newlines(s[..q]) + 1
  {
    assert s[..e] == s[..e - 1] + [s[e - 1]];
    NewlinesConcat(s[..e - 1], [s[e - 1]]);
    if s[e - 1] == '\n' {
      q := e - 1;
    } else {
      q := LastNewline(s, e - 1);
      assert s[q + 1..e] == s[q + 1..e - 1] + [s[e - 1]];
    }
  }

  lemma {:induction false} FirstNewline(s: string, f: nat) returns (q: nat)
    requires f <= |s| && Newlines(s[f..]) > 0
    ensures f <= q < |s| && s[q] == '\n' && NoNewline(s[f..q]) && Newlines(s[f..]) == Newlines(s[q + 1..]) + 1
    decreases |s| - f
  {
    assert s[f..][1..] == s[f + 1..];
    if s[f] == '\n' {
      q := f;
    } else {
      q := FirstNewline(s, f + 1);
      assert s[f..q] == [s[f]] + s[f + 1..q];
    }
  }

  lemma StarSpans(s: string, i: nat, j: nat)
    requires i <= j <= |s| && NoNewline(s[i..j])
    ensures Spans("*", s, i, j)
  {
    assert "*"[1..] == "" && Spans("", s, j, j);
  }

  lemma NewlineStarSpans(s: string, q: nat, e: nat)
    requires q < e <= |s| && s[q] == '\n' && NoNewline(s[q + 1..e])
    ensures Spans("\n*", s, q, e)
  {
    assert "\n*"[1..] == "*";
    StarSpans(s, q + 1, e);
  }

  /** Newlines and stars alone, up to a star, fit in front of any place that has as many
      newlines before it: take the nearest ones. */
  lemma {:induction false} LeftFits(l: string, s: string, e: nat) returns (i: nat)
    requires !Heavy(l) && (l == "" || l[|l| - 1] == '*')
    requires e <= |s| && Newlines(s[..e]) >= Newlines(l)
    ensures i <= e && Spans(l, s, i, e)
    decreases |l|
  {
    var n := |l|;
    if n == 0 {
      i := e;
    } else if n == 1 || l[n - 2] == '*' {
      LightSlice(l, 0, n - 1);
      assert l == l[..n - 1] + "*";
      NewlinesConcat(l[..n - 1], "*");
      i := LeftFits(l[..n - 1], s, e);
      StarSpans(s, e, e);
      SpansConcat(l[..n - 1], "*", s, i, e, e);
    } else {
      assert !HeavyAt(l, n - 2) && (n > 2 ==> !HeavyAt(l, n - 3));
      LightSlice(l, 0, n - 2);
      assert l == l[..n - 2] + "\n*";
      NewlinesConcat(l[..n - 2], "\n*");
      var q := LastNewline(s, e);
      i := LeftFits(l[..n - 2], s, q);
      NewlineStarSpans(s, q, e);
      SpansConcat(l[..n - 2], "\n*", s, i, q, e);
    }
  }

  lemma {:induction false} RightFits(r: string, s: string, f: nat) returns (j: nat)
    requires !Heavy(r) && (r == "" || r[0] == '*')
    requires f <= |s| && Newlines(s[f..]) >= Newlines(r)
    ensures f <= j <= |s| && Spans(r, s, f, j)
    decreases |r|
  {
    if r == "" {
      j := f;
    } else {
      LightSlice(r, 1, |r|);
      assert r == ['*'] + r[1..] && r[1..|r|] == r[1..];
      if |r| == 1 || r[1] == '*' {
        j := RightFits(r[1..], s, f);
        assert NoNewline(s[f..f]);
      } else {
        assert !HeavyAt(r, 1) && (|r| > 2 ==> !HeavyAt(r, 2));
        LightSlice(r, 2, |r|);
        assert r[1..][0] == '\n' && r[1..][1..] == r[2..] == r[2..|r|];
        var q := FirstNewline(s, f);
        j := RightFits(r[2..], s, q + 1);
        assert Spans(r[1..], s, q, j);
      }
    }
  }

  /** A pattern with no separating star: newlines and stars, a star-free middle, newlines
      and stars. */
  lemma MiddleShape(p: string) returns (a: nat, b: nat)
    requires forall at: nat :: !Separates(p, at)
    ensures a <= b <= |p| && '*' !in p[a..b]
    ensures !Heavy(p[..a]) && (a == 0 || p[a - 1] == '*')
    ensures !Heavy(p[b..]) && (b == |p| || p[b] == '*')
  {
    a := AfterLastHeavyStar(p);
    b := a;
    while b < |p| && p[b] != '*'
      invariant a <= b <= |p| && '*' !in p[a..b]
    {
      assert p[a..b + 1] == p[a..b] + [p[b]];
      b := b + 1;
    }
    if a > 0 {
      assert !Separates(p, a - 1);
      LightStar(p[..a - 1], "");
      assert p[..a] == p[..a - 1] + ['*'] + "";
    }
    if b < |p| {
      LightStar("", p[b + 1..]);
      assert p[b..] == "" + ['*'] + p[b + 1..];
    }
  }

  /** Just behind the last star with something heavy to its right. */
  lemma AfterLastHeavyStar(p: string) returns (a: nat)
    ensures a <= |p| && (a == 0 || (p[a - 1] == '*' && Heavy(p[a..])))
    ensures forall u :: a <= u < |p| && p[u] == '*' ==> !Heavy(p[u + 1..])
  {
    a := HeavyStarBefore(p, |p|);
  }

  lemma {:induction false} HeavyStarBefore(p: string, t: nat) returns (a: nat)
    requires t <= |p|
    ensures a <= t && (a == 0 || (p[a - 1] == '*' && Heavy(p[a..])))
    ensures forall u :: a <= u < t && p[u] == '*' ==> !Heavy(p[u + 1..])
  {
    if t == 0 {
      a := 0;
    } else if p[t - 1] == '*' && Heavy(p[t..]) {
      a := t;
    } else {
      a := HeavyStarBefore(p, t - 1);
    }
  }

  lemma LightStar(q: string, r: string)
    requires !Heavy(q) && !Heavy(r)
    ensures !Heavy(q + ['*'] + r)
  {
    var x := q + ['*'] + r;
    forall i | 0 <= i < |x|
      ensures !HeavyAt(x, i)
    {
      assert i < |q| ==> !HeavyAt(q, i);
      assert i > |q| ==> !HeavyAt(r, i - |q| - 1);
    }
  }

  /** Without a separating star, any documented match leads to one that needs no newline
      under a star. */
  lemma NoSeparatorAgrees(p: string, cmd: string)
    requires (forall at: nat :: !Separates(p, at)) && Documented(p, cmd)
    ensures CommandDenotes(p, cmd)
  {
    var a, b := MiddleShape(p);
    var l, mid, r := p[..a], p[a..b], p[b..];
    assert p == l + (mid + r);
    var i, j :| 0 <= i <= j <= |cmd| && DocumentedAt(p, cmd, i, j);
    var runs :| IsFreeFilling(p, runs, cmd[i..j]);
    var e := AroundMiddle(l, mid, r, runs, cmd, i, j);
    var i', j' := PartsFit(l, mid, r, cmd, e);
    SpansDenotes(p, cmd, i', j');
  }

  lemma PartsFit(l: string, mid: string, r: string, cmd: string, e: nat) returns (i: nat, j: nat)
    requires !Heavy(l) && (l == "" || l[|l| - 1] == '*') && '*' !in mid && !Heavy(r) && (r == "" || r[0] == '*')
    requires e + |mid| <= |cmd| && ToLower(mid) == ToLower(cmd[e..e + |mid|])
    requires Newlines(cmd[..e]) >= Newlines(l) && Newlines(cmd[e + |mid|..]) >= Newlines(r)
    ensures i <= j <= |cmd| && Spans(l + (mid + r), cmd, i, j)
  {
    var f := e + |mid|;
    StarFreeDenotes(mid, cmd[e..f]);
    SpansDenotes(mid, cmd, e, f);
    i := LeftFits(l, cmd, e);
    j := RightFits(r, cmd, f);
    SpansConcat(mid, r, cmd, e, f, j);
    SpansConcat(l, mid + r, cmd, i, e, j);
  }

  /** Where the middle of a documented match stands, and how many newlines are around it. */
  lemma AroundMiddle(l: string, mid: string, r: string, runs: seq<string>, cmd: string, i: nat, j: nat) returns (e: nat)
    requires '*' !in mid && i <= j <= |cmd| && IsFreeFilling(l + (mid + r), runs, cmd[i..j])
    ensures e + |mid| <= |cmd| && ToLower(mid) == ToLower(cmd[e..e + |mid|])
    ensures Newlines(cmd[..e]) >= Newlines(l) && Newlines(cmd[e + |mid|..]) >= Newlines(r)
  {
    var first, more := SplitRuns(l, mid, r, runs);
    FillNewlines(l, first);
    FillNewlines(r, more);
    e := PlaceParts(Fill(l, first), mid, Fill(r, more), cmd, i, j);
  }

  lemma PlaceParts(pre: string, mid: string, post: string, cmd: string, i: nat, j: nat) returns (e: nat)
    requires i <= j <= |cmd| && ToLower(pre + (mid + post)) == ToLower(cmd[i..j])
    ensures e + |mid| <= |cmd| && ToLower(mid) == ToLower(cmd[e..e + |mid|])
    ensures Newlines(cmd[..e]) >= Newlines(pre) && Newlines(cmd[e + |mid|..]) >= Newlines(post)
  {
    var x, n, m := cmd[i..j], |pre|, |pre| + |mid|;
    e := i + n;
    LowerParts(pre, mid, post, x);
    assert e + |mid| == i + m;
    assert ToLower(mid) == ToLower(cmd[e..e + |mid|]) by {
      SliceOfSlice(cmd, i, j, n, m);
    }
    PartNewlines(cmd, i, j, n, m);
    assert Newlines(pre) == Newlines(x[..n]) by {
      NewlinesFold(pre, x[..n]);
    }
    assert Newlines(post) == Newlines(x[m..]) by {
      NewlinesFold(post, x[m..]);
    }
  }

  lemma PartNewlines(s: string, i: nat, j: nat, n: nat, m: nat)
    requires i <= j <= |s| && n <= m <= j - i
    ensures Newlines(s[..i + n]) >= Newlines(s[i..j][..n]) && Newlines(s[i + m..]) >= Newlines(s[i..j][m..])
  {
    var x := s[i..j];
    assert s[..i + n] == s[..i] + x[..n];
    assert s[i + m..] == x[m..] + s[j..];
    NewlinesConcat(s[..i], x[..n]);
    NewlinesConcat(x[m..], s[j..]);
  }

  lemma SplitRuns(l: string, mid: string, r: string, runs: seq<string>) returns (first: seq<string>, more: seq<string>)
    requires '*' !in mid && |runs| == Stars(l + (mid + r))
    ensures |first| == Stars(l) && |more| == Stars(r)
    ensures Fill(l + (mid + r), runs) == Fill(l, first) + (mid + Fill(r, more))
  {
    LiteralsSplit(l, mid + r);
    LiteralsSplit(mid, r);
    StarFreeFill(mid);
    first, more := runs[..Stars(l)], runs[Stars(l)..];
    assert runs == first + more && more == [] + more;
    FillSplit(l, mid + r, first, more);
    FillSplit(mid, r, [], more);
  }

  lemma LowerParts(pre: string, mid: string, post: string, x: string)
    requires ToLower(pre + (mid + post)) == ToLower(x)
    ensures |x| == |pre| + |mid| + |post|
    ensures ToLower(x[..|pre|]) == ToLower(pre)
    ensures ToLower(x[|pre|..|pre| + |mid|]) == ToLower(mid)
    ensures ToLower(x[|pre| + |mid|..]) == ToLower(post)
  {
    assert |x| == |ToLower(x)|;
    ToLowerConcat(pre, mid + post);
    ToLowerConcat(mid, post);
    var n, m := |pre|, |pre| + |mid|;
    assert ToLower(x[..n]) == ToLower(x)[..n];
    assert ToLower(x[n..m]) == ToLower(x)[n..m];
    assert ToLower(x[m..]) == ToLower(x)[m..];
  }

  lemma {:induction false} FillSplit(p: string, q: string, runs: seq<string>, more: seq<string>)
    requires |runs| == Stars(p)
    ensures Fill(p + q, runs + more) == Fill(p, runs) + Fill(q, more)
    decreases |p|
  {
    if p == "" {
      assert p + q == q && runs + more == more;
    } else {
      assert (p + q)[1..] == p[1..] + q;
      if p[0] == '*' {
        FillSplit(p[1..], q, runs[1..], more);
        assert (runs + more)[1..] == runs[1..] + more;
      } else {
        FillSplit(p[1..], q, runs, more);
      }
    }
  }

  lemma SliceOfSlice(s: string, i: nat, j: nat, n: nat, m: nat)
    requires i <= j <= |s| && n <= m <= j - i
    ensures s[i..j][n..m] == s[i + n..i + m]
  {
    var x, y := s[i..j][n..m], s[i + n..i + m];
    assert |x| == |y|;
    forall k | 0 <= k < |x|
      ensures x[k] == y[k]
    {
      assert x[k] == s[i..j][n + k] == s[i + (n + k)];
    }
  }

  // ---------- When some command disagrees ----------

  /** Bytes of these lower-case characters, and newlines right before another. In a pattern
      a star counts for nothing and parts two newlines. */
  function Weight(s: string, cs: set<char>): nat {
    if s == "" then 0
    else (if Lower(s[0]) in cs || (s[0] == '\n' && |s| >= 2 && s[1] == '\n') then 1 else 0) + Weight(s[1..], cs)
  }

  lemma {:induction false} WeightConcat(a: string, b: string, cs: set<char>)
    ensures Weight(a + b, cs) >= Weight(a, cs) + Weight(b, cs)
    ensures a == "" || b == "" || a[|a| - 1] != '\n' || b[0] != '\n' ==>
              Weight(a + b, cs) == Weight(a, cs) + Weight(b, cs)
    decreases |a|
  {
    if a == "" {
      assert a + b == b;
    } else {
      assert (a + b)[1..] == a[1..] + b;
      assert |a| >= 2 ==> (a + b)[1] == a[1] && a[1..][|a[1..]| - 1] == a[|a| - 1];
      assert |a| == 1 && b != "" ==> (a + b)[1] == b[0];
      WeightConcat(a[1..], b, cs);
    }
  }

  lemma {:induction false} WeightFold(a: string, b: string, cs: set<char>)
    requires ToLower(a) == ToLower(b)
    ensures Weight(a, cs) == Weight(b, cs)
    decreases |a|
  {
    assert |a| == |ToLower(a)| == |ToLower(b)| == |b|;
    if a != "" {
      assert forall i :: 0 <= i < |a| ==> Lower(a[i]) == ToLower(a)[i] == ToLower(b)[i] == Lower(b[i]);
      assert ToLower(a[1..]) == ToLower(a)[1..] == ToLower(b)[1..] == ToLower(b[1..]);
      WeightFold(a[1..], b[1..], cs);
    }
  }

  /** A part weighs no more than the whole. */
  lemma PartWeight(s: string, i: nat, j: nat, cs: set<char>)
    requires i <= j <= |s|
    ensures Weight(s[i..j], cs) <= Weight(s, cs)
  {
    WeightConcat(s[i..j], s[j..], cs);
    WeightConcat(s[..i], s[i..j] + s[j..], cs);
    assert s == s[..i] + (s[i..j] + s[j..]);
  }

  /** No filling weighs less than the pattern. */
  lemma {:induction false} FillWeight(p: string, runs: seq<string>, cs: set<char>)
    requires |runs| == Stars(p) && '*' !in cs
    ensures Weight(Fill(p, runs), cs) >= Weight(p, cs)
    decreases |p|
  {
    if p != "" {
      if p[0] == '*' {
        FillWeight(p[1..], runs[1..], cs);
        WeightConcat(runs[0], Fill(p[1..], runs[1..]), cs);
      } else {
        var rest := Fill(p[1..], runs);
        FillWeight(p[1..], runs, cs);
        assert ([p[0]] + rest)[1..] == rest;
        assert |p| >= 2 && p[1] != '*' ==> rest != "" && rest[0] == p[1];
      }
    }
  }

  /** With one light character under each star a filling weighs exactly as much. */
  lemma {:induction false} LightFill(p: string, runs: seq<string>, x: char, cs: set<char>)
    requires |runs| == Stars(p) && '*' !in cs
    requires x != '\n' && Lower(x) !in cs && forall r :: r in runs ==> r == [x]
    ensures Weight(Fill(p, runs), cs) == Weight(p, cs)
    decreases |p|
  {
    if p != "" {
      if p[0] == '*' {
        var rest := Fill(p[1..], runs[1..]);
        assert forall r :: r in runs[1..] ==> r in runs;
        LightFill(p[1..], runs[1..], x, cs);
        assert runs[0] in runs;
        assert ([x] + rest)[1..] == rest;
      } else {
        var rest := Fill(p[1..], runs);
        LightFill(p[1..], runs, x, cs);
        assert ([p[0]] + rest)[1..] == rest;
        FillHead(p[1..], runs, x);
      }
    }
  }

  lemma FillHead(q: string, runs: seq<string>, x: char)
    requires |runs| == Stars(q) && forall r :: r in runs ==> r == [x]
    ensures Fill(q, runs) == "" <==> q == ""
    ensures q != "" ==> Fill(q, runs)[0] == if q[0] == '*' then x else q[0]
  {
    if q != "" && q[0] == '*' {
      assert runs[0] in runs;
      assert Fill(q, runs) == [x] + Fill(q[1..], runs[1..]);
    }
  }

  lemma {:induction false} HeavyWeight(q: string, i: nat, cs: set<char>)
    requires i < |q| && HeavyAt(q, i) && (q[i] == '\n' || Lower(q[i]) in cs)
    ensures Weight(q, cs) >= 1
    decreases |q|
  {
    if i > 0 {
      assert HeavyAt(q[1..], i - 1);
      HeavyWeight(q[1..], i - 1, cs);
    }
  }

  /** `n` newlines, each alone. */
  function Barrier(x: char, n: nat): string {
    if n == 0 then [x] else [x, '\n'] + Barrier(x, n - 1)
  }

  lemma {:induction false} BarrierWeighsNothing(x: char, n: nat, cs: set<char>)
    requires x != '\n' && Lower(x) !in cs && '\n' !in cs
    ensures Weight(Barrier(x, n), cs) == 0 && Newlines(Barrier(x, n)) == n
    ensures var b := Barrier(x, n); b[0] == x && b[|b| - 1] == x
  {
    var b := Barrier(x, n);
    if n == 0 {
      assert [x][1..] == "";
    } else {
      var rest := Barrier(x, n - 1);
      BarrierWeighsNothing(x, n - 1, cs);
      assert b[1..] == ['\n'] + rest && b[1..][1..] == rest;
      NewlinesConcat([x, '\n'], rest);
    }
  }

  /** A part of `a + f + b` holds all of `f`, or lies within `a + f` or `f + b`. */
  lemma PartOfThree(a: string, f: string, b: string, i: nat, j: nat, cs: set<char>)
    requires i <= j <= |a + f + b|
    ensures var x := (a + f + b)[i..j];
            Newlines(x) >= Newlines(f) || Weight(x, cs) <= Weight(a + f, cs) || Weight(x, cs) <= Weight(f + b, cs)
  {
    if j < |a| + |f| {
      PrefixPart(a + f, b, i, j, cs);
    } else if i > |a| {
      assert a + f + b == a + (f + b);
      SuffixPart(a, f + b, i, j, cs);
    } else {
      MiddlePart(a, f, b, i, j);
    }
  }

  lemma PrefixPart(s: string, b: string, i: nat, j: nat, cs: set<char>)
    requires i <= j <= |s|
    ensures Weight((s + b)[i..j], cs) <= Weight(s, cs)
  {
    assert (s + b)[i..j] == s[i..j];
    PartWeight(s, i, j, cs);
  }

  lemma SuffixPart(a: string, s: string, i: nat, j: nat, cs: set<char>)
    requires |a| <= i <= j <= |a + s|
    ensures Weight((a + s)[i..j], cs) <= Weight(s, cs)
  {
    assert (a + s)[i..j] == s[i - |a|..j - |a|];
    PartWeight(s, i - |a|, j - |a|, cs);
  }

  lemma MiddlePart(a: string, f: string, b: string, i: nat, j: nat)
    requires i <= |a| && |a| + |f| <= j <= |a + f + b|
    ensures Newlines((a + f + b)[i..j]) >= Newlines(f)
  {
    var l, r := a[i..], b[..j - |a| - |f|];
    assert (a + f + b)[i..j] == l + (f + r);
    NewlinesConcat(l, f + r);
    NewlinesConcat(f, r);
  }

  lemma DenotedMeasure(p: string, x: string, cs: set<char>)
    requires '*' !in cs
    ensures GlobDenotes(p, x) ==> Weight(x, cs) >= Weight(p, cs) && Newlines(x) <= |p|
  {
    if runs :| IsFilling(p, runs, x) {
      FillWeight(p, runs, cs);
      WeightFold(Fill(p, runs), x, cs);
      FillNewlines(p, runs);
      NewlinesFold(Fill(p, runs), x);
      NewlinesBound(p);
    }
  }

  lemma {:induction false} NewlinesBound(p: string)
    ensures Newlines(p) <= |p|
  {
    if p != "" {
      NewlinesBound(p[1..]);
    }
  }

  /** What is heavy at a position, as a character to count. */
  function Mark(q: string, i: nat): (c: char)
    requires i < |q| && HeavyAt(q, i)
    ensures c != '*' && c != '\n'
  {
    if q[i] == '\n' then 'a' else Lower(q[i])
  }

  function OtherThan(c: char, d: char): (x: char)
    ensures x != c && x != d && Lower(x) == x && x != '\n'
  {
    if 'x' != c && 'x' != d then 'x' else if 'y' != c && 'y' != d then 'y' else 'z'
  }

  /** The command that disagrees: a light character under every star, and under star `at` a
      barrier with more newlines than the pattern has. */
  lemma SeparatorDisagrees(p: string, at: nat) returns (cmd: string)
    requires Separates(p, at)
    ensures Documented(p, cmd) && !CommandDenotes(p, cmd)
  {
    var l, r := p[..at], p[at + 1..];
    var i :| 0 <= i < |l| && HeavyAt(l, i);
    var k :| 0 <= k < |r| && HeavyAt(r, k);
    var cs := {Mark(l, i), Mark(r, k)};
    var x := OtherThan(Mark(l, i), Mark(r, k));
    HeavyWeight(l, i, cs);
    HeavyWeight(r, k, cs);
    var f := Barrier(x, |p| + 1);
    cmd := XFill(l, x) + f + XFill(r, x);
    BarrierFills(p, at, x, f);
    BesideBarrier(l, r, x, |p| + 1, cs);
    PatternWeight(p, at, cs);
    forall n, m | 0 <= n <= m <= |cmd|
      ensures !GlobDenotes(p, cmd[n..m])
    {
      NotInside(p, XFill(l, x), f, XFill(r, x), cs, n, m);
    }
  }

  /** The pattern with one character under each star. */
  function XFill(q: string, x: char): string {
    Fill(q, seq(Stars(q), _ => [x]))
  }

  lemma XFillWeight(q: string, x: char, cs: set<char>)
    requires '*' !in cs && x != '\n' && Lower(x) !in cs
    ensures Weight(XFill(q, x), cs) == Weight(q, cs)
  {
    LightFill(q, seq(Stars(q), _ => [x]), x, cs);
  }

  lemma NotInside(p: string, a: string, f: string, b: string, cs: set<char>, n: nat, m: nat)
    requires '*' !in cs && Newlines(f) > |p|
    requires Weight(a + f, cs) < Weight(p, cs) && Weight(f + b, cs) < Weight(p, cs)
    requires n <= m <= |a + f + b|
    ensures !GlobDenotes(p, (a + f + b)[n..m])
  {
    PartOfThree(a, f, b, n, m, cs);
    DenotedMeasure(p, (a + f + b)[n..m], cs);
  }

  /** What lies to the barrier's left or right weighs too little for the pattern. */
  lemma BesideBarrier(l: string, r: string, x: char, n: nat, cs: set<char>)
    requires '*' !in cs && '\n' !in cs && x != '\n' && Lower(x) !in cs
    ensures var f := Barrier(x, n);
            && Newlines(f) == n
            && Weight(XFill(l, x) + f, cs) == Weight(l, cs)
            && Weight(f + XFill(r, x), cs) == Weight(r, cs)
  {
    XFillWeight(l, x, cs);
    XFillWeight(r, x, cs);
    BarrierIsLight(XFill(l, x), XFill(r, x), x, n, cs);
  }

  lemma BarrierIsLight(a: string, b: string, x: char, n: nat, cs: set<char>)
    requires x != '\n' && Lower(x) !in cs && '\n' !in cs
    ensures var f := Barrier(x, n);
            Newlines(f) == n && Weight(a + f, cs) == Weight(a, cs) && Weight(f + b, cs) == Weight(b, cs)
  {
    BarrierWeighsNothing(x, n, cs);
    WeightConcat(a, Barrier(x, n), cs);
    WeightConcat(Barrier(x, n), b, cs);
  }

  lemma PatternWeight(p: string, at: nat, cs: set<char>)
    requires at < |p| && p[at] == '*' && '*' !in cs
    ensures Weight(p, cs) == Weight(p[..at], cs) + Weight(p[at + 1..], cs)
  {
    var l, r := p[..at], p[at + 1..];
    assert p == l + (['*'] + r) && (['*'] + r)[1..] == r;
    WeightConcat(l, ['*'] + r, cs);
  }

  lemma BarrierFills(p: string, at: nat, x: char, f: string)
    requires at < |p| && p[at] == '*'
    ensures var l, r := p[..at], p[at + 1..];
            Documented(p, XFill(l, x) + f + XFill(r, x))
  {
    var l, r := p[..at], p[at + 1..];
    var xs, ys := seq(Stars(l), _ => [x]), seq(Stars(r), _ => [x]);
    var q := ['*'] + r;
    assert p == l + q && q[1..] == r && ([f] + ys)[1..] == ys;
    FillSplit(l, q, xs, [f] + ys);
    LiteralsSplit(l, q);
    var cmd := Fill(l, xs) + f + Fill(r, ys);
    assert Fill(q, [f] + ys) == f + Fill(r, ys);
    assert Fill(p, xs + ([f] + ys)) == cmd;
    assert cmd[0..|cmd|] == cmd;
    assert IsFreeFilling(p, xs + ([f] + ys), cmd[0..|cmd|]);
    assert DocumentedAt(p, cmd, 0, |cmd|);
  }

  /** The code meets the documented reading of the star on every command exactly when no star
      has, on both sides, an ordinary character other than a newline or two adjacent newlines. */
  lemma DocumentedExactly(p: string)
    ensures (forall cmd: string :: CommandDenotes(p, cmd) <==> Documented(p, cmd))
       <==> (forall at: nat :: !Separates(p, at))
  {
    if at: nat :| Separates(p, at) {
      var cmd := SeparatorDisagrees(p, at);
    } else {
      forall cmd: string
        ensures CommandDenotes(p, cmd) <==> Documented(p, cmd)
      {
        if CommandDenotes(p, cmd) {
          var i, j :| 0 <= i <= j <= |cmd| && GlobDenotes(p, cmd[i..j]);
          var runs :| IsFilling(p, runs, cmd[i..j]);
          assert IsFreeFilling(p, runs, cmd[i..j]);
          assert DocumentedAt(p, cmd, i, j);
        }
        if Documented(p, cmd) {
          NoSeparatorAgrees(p, cmd);
        }
      }
    }
  }
}
