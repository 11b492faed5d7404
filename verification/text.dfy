/** The JavaScript string operations the client and the renderers rely on:
    `trim()`, `includes()` and `split('\n')` with the trailing fragment popped. */
module Text {

  /** The characters `String.prototype.trim` removes: ECMAScript WhiteSpace and
      LineTerminator code points. */
  predicate IsJsSpace(c: char)
  {
    c == '\t' || c == '\n' || c == '\U{000B}' || c == '\U{000C}' || c == '\r' || c == ' '
    || c == '\U{00A0}' || c == '\U{1680}' || ('\U{2000}' <= c <= '\U{200A}')
    || c == '\U{2028}' || c == '\U{2029}' || c == '\U{202F}' || c == '\U{205F}'
    || c == '\U{3000}' || c == '\U{FEFF}'
  }

  predicate AllSpace(s: string)
  {
    forall i :: 0 <= i < |s| ==> IsJsSpace(s[i])
  }

  /** How many whitespace characters `s` starts with. */
  function LeadingSpace(s: string): (n: nat)
    ensures n <= |s| && (n < |s| ==> !IsJsSpace(s[n]))
  {
    if s != [] && IsJsSpace(s[0]) then 1 + LeadingSpace(s[1..]) else 0
  }

  /** How many whitespace characters `s` ends with. */
  function TrailingSpace(s: string): (n: nat)
    ensures n <= |s| && (n < |s| ==> !IsJsSpace(s[|s| - 1 - n]))
  {
    if s != [] && IsJsSpace(s[|s| - 1]) then 1 + TrailingSpace(s[..|s| - 1]) else 0
  }

  /** Every character the leading run counts is whitespace. */
  lemma {:induction false} LeadingSpaceAt(s: string, i: nat)
    requires i < LeadingSpace(s)
    ensures IsJsSpace(s[i])
    decreases |s|
  {
    if i > 0 {
      LeadingSpaceAt(s[1..], i - 1);
    }
  }

  /** Every character the trailing run counts is whitespace. */
  lemma {:induction false} TrailingSpaceAt(s: string, i: nat)
    requires |s| - TrailingSpace(s) <= i < |s|
    ensures IsJsSpace(s[i])
    decreases |s|
  {
    if i < |s| - 1 {
      TrailingSpaceAt(s[..|s| - 1], i);
    }
  }

  lemma LeadingSpaceAll(s: string)
    ensures AllSpace(s[..LeadingSpace(s)])
  {
    var cut := s[..LeadingSpace(s)];
    forall i | 0 <= i < |cut| ensures IsJsSpace(cut[i]) {
      LeadingSpaceAt(s, i);
    }
  }

  /** Leading whitespace removed. */
  function TrimStart(s: string): string
  {
    s[LeadingSpace(s)..]
  }

  /** Trailing whitespace removed. */
  function TrimEnd(s: string): string
  {
    s[..|s| - TrailingSpace(s)]
  }

  /** `s.trim()` */
  function Trim(s: string): string
  {
    TrimEnd(TrimStart(s))
  }

  /** Trim gives the slice of its input that starts after the leading
      whitespace. */
  lemma TrimSlice(s: string)
    ensures var a, r := LeadingSpace(s), Trim(s);
      a + |r| <= |s| && r == s[a..a + |r|]
  {
  }

  /** All that trim removes, on either side, is whitespace. */
  lemma TrimCutsSpace(s: string)
    ensures var a, r := LeadingSpace(s), Trim(s);
      a + |r| <= |s| && r == s[a..a + |r|] && AllSpace(s[..a]) && AllSpace(s[a + |r|..])
  {
    TrimSlice(s);
    var t := TrimStart(s);
    var a, n := LeadingSpace(s), |TrimEnd(t)|;
    LeadingSpaceAll(s);
    var cut := s[a + n..];
    forall i | 0 <= i < |cut| ensures IsJsSpace(cut[i]) {
      assert cut[i] == t[n + i];
      TrailingSpaceAt(t, n + i);
    }
  }

  /** What trim returns neither starts nor ends with whitespace. */
  lemma TrimEnds(s: string)
    ensures Trim(s) == [] || (!IsJsSpace(Trim(s)[0]) && !IsJsSpace(Trim(s)[|Trim(s)| - 1]))
  {
    var t := TrimStart(s);
    var r := TrimEnd(t);
    if r != [] {
      assert r[0] == t[0];
    }
  }

  /** A string that starts with a non-whitespace character does not end in
      whitespace all the way back to it. */
  lemma {:induction false} TrailingSpaceBound(t: string)
    requires t != [] && !IsJsSpace(t[0])
    ensures TrailingSpace(t) < |t|
    decreases |t|
  {
    if |t| > 1 && IsJsSpace(t[|t| - 1]) {
      var init := t[..|t| - 1];
      assert init[0] == t[0];
      TrailingSpaceBound(init);
    }
  }

  /** `!s.trim()`: the string holds nothing but whitespace. */
  predicate Blank(s: string)
  {
    LeadingSpace(s) == |s|
  }

  lemma BlankIffTrimEmpty(s: string)
    ensures Blank(s) <==> Trim(s) == []
  {
    if !Blank(s) {
      var t := TrimStart(s);
      assert t[0] == s[LeadingSpace(s)];
      TrailingSpaceBound(t);
    }
  }

  lemma BlankIffAllSpace(s: string)
    ensures Blank(s) <==> AllSpace(s)
  {
    if Blank(s) {
      LeadingSpaceAll(s);
      assert s[..LeadingSpace(s)] == s;
    } else {
      assert !IsJsSpace(s[LeadingSpace(s)]);
    }
  }

  /** `s.trim()` is falsy exactly when `s` is all whitespace. */
  lemma TrimEmptyIffAllSpace(s: string)
    ensures Trim(s) == [] <==> AllSpace(s)
  {
    BlankIffTrimEmpty(s);
    BlankIffAllSpace(s);
  }

  /** `s.includes(sub)` */
  predicate Contains(s: string, sub: string)
    decreases |s|
  {
    |sub| <= |s| && (s[..|sub|] == sub || (|s| > 0 && Contains(s[1..], sub)))
  }

  predicate OccursAt(s: string, sub: string, i: int)
  {
    0 <= i <= |s| - |sub| && s[i..i + |sub|] == sub
  }

  /** `includes` finds `sub` exactly when it occurs at some position. */
  lemma {:induction false} ContainsIffOccurs(s: string, sub: string)
    ensures Contains(s, sub) <==> exists i :: OccursAt(s, sub, i)
    decreases |s|
  {
    if |sub| <= |s| && s[..|sub|] == sub {
      assert OccursAt(s, sub, 0);
    } else if |sub| <= |s| && |s| > 0 {
      ContainsIffOccurs(s[1..], sub);
      if exists i :: OccursAt(s, sub, i) {
        var i :| OccursAt(s, sub, i);
        assert i != 0;
        assert OccursAt(s[1..], sub, i - 1);
      }
      if Contains(s[1..], sub) {
        var j :| OccursAt(s[1..], sub, j);
        assert OccursAt(s, sub, j + 1);
      }
    } else if |sub| > |s| {
      assert forall i :: !OccursAt(s, sub, i);
    }
  }

  /** An occurrence survives prepending, shifted by the prefix's length. */
  lemma OccursShift(e: string, r: string, sub: string, i: int)
    requires OccursAt(r, sub, i)
    ensures OccursAt(e + r, sub, i + |e|)
  {
    assert (e + r)[i + |e|..i + |e| + |sub|] == r[i..i + |sub|];
  }

  /** Length of the longest prefix of `s` without `c`. */
  function RunWithout(s: string, c: char): (n: nat)
    ensures n <= |s|
    ensures n < |s| ==> s[n] == c
  {
    if s == [] || s[0] == c then 0 else 1 + RunWithout(s[1..], c)
  }

  /** How many copies of `c` the string starts with. */
  function LeadingRun(s: string, c: char): (n: nat)
    ensures n <= |s|
  {
    if s != [] && s[0] == c then 1 + LeadingRun(s[1..], c) else 0
  }

  /** A prefix made only of `c` is counted in full. */
  lemma {:induction false} LeadingRunOfPrefix(d: string, x: string, c: char)
    requires forall i :: 0 <= i < |d| ==> d[i] == c
    ensures LeadingRun(d + x, c) >= |d|
    decreases |d|
  {
    if d != [] {
      assert (d + x)[0] == c;
      assert (d + x)[1..] == d[1..] + x;
      LeadingRunOfPrefix(d[1..], x, c);
    }
  }

  /** Every character counted by `LeadingRun` is a `c`. */
  lemma {:induction false} LeadingRunAt(s: string, c: char, i: nat)
    requires i < LeadingRun(s, c)
    ensures s[i] == c
    decreases i
  {
    if i > 0 {
      LeadingRunAt(s[1..], c, i - 1);
    }
  }

  /** A run of `c` followed by something else is counted exactly. */
  lemma {:induction false} LeadingRunOfRun(d: string, x: string, c: char)
    requires forall i :: 0 <= i < |d| ==> d[i] == c
    requires x == [] || x[0] != c
    ensures LeadingRun(d + x, c) == |d|
    decreases |d|
  {
    if d == [] {
      assert d + x == x;
    } else {
      assert (d + x)[0] == c;
      assert (d + x)[1..] == d[1..] + x;
      LeadingRunOfRun(d[1..], x, c);
    }
  }

  /** Before a `c`, a stretch without `c` is the whole run. */
  lemma {:induction false} RunWithoutPrefix(x: string, y: string, c: char)
    requires c !in x && y != [] && y[0] == c
    ensures RunWithout(x + y, c) == |x|
    decreases |x|
  {
    if x == [] {
      assert x + y == y;
    } else {
      assert (x + y)[0] == x[0];
      assert (x + y)[1..] == x[1..] + y;
      assert c !in x[1..] by {
        assert forall ch :: ch in x[1..] ==> ch in x;
      }
      RunWithoutPrefix(x[1..], y, c);
    }
  }

  /** The run holds no `c`: it ends at the first one. */
  lemma {:induction false} RunWithoutFree(s: string, c: char)
    ensures c !in s[..RunWithout(s, c)]
    decreases |s|
  {
    if s != [] && s[0] != c {
      RunWithoutFree(s[1..], c);
      assert s[..RunWithout(s, c)] == [s[0]] + s[1..][..RunWithout(s[1..], c)];
    }
  }

  predicate NoNewline(s: string)
  {
    '\n' !in s
  }

  predicate AllNoNewline(lines: seq<string>)
  {
    forall i :: 0 <= i < |lines| ==> NoNewline(lines[i])
  }

  /** Each line followed by its terminating newline. */
  function Unlines(lines: seq<string>): string
  {
    if lines == [] then [] else lines[0] + "\n" + Unlines(lines[1..])
  }

  lemma {:induction false} UnlinesAppend(a: seq<string>, b: seq<string>)
    ensures Unlines(a + b) == Unlines(a) + Unlines(b)
  {
    if a == [] {
      assert a + b == b;
      assert Unlines(a) + Unlines(b) == Unlines(b);
    } else {
      assert (a + b)[0] == a[0];
      assert (a + b)[1..] == a[1..] + b;
      UnlinesAppend(a[1..], b);
    }
  }

  /** `const lines = s.split('\n'); rest = lines.pop()`: the complete lines of
      `s` and the unterminated fragment after the last newline. */
  function SplitLines(s: string): (r: (seq<string>, string))
    ensures AllNoNewline(r.0) && NoNewline(r.1)
    ensures Unlines(r.0) + r.1 == s
  {
    if s == [] then ([], [])
    else
      var (lines, rest) := SplitLines(s[1..]);
      if s[0] == '\n' then
        assert Unlines([[]] + lines) == "\n" + Unlines(lines);
        ([[]] + lines, rest)
      else if lines == [] then
        ([], [s[0]] + rest)
      else
        var first := [s[0]] + lines[0];
        assert ([first] + lines[1..])[1..] == lines[1..];
        ([first] + lines[1..], rest)
  }

  /** The first newline of `x + "\n" + xs` is the one after `x`. */
  lemma FirstNewline(x: string, xs: string)
    requires NoNewline(x)
    ensures (x + "\n" + xs)[|x|] == '\n'
    ensures forall i :: 0 <= i < |x| ==> (x + "\n" + xs)[i] != '\n'
  {
    forall i | 0 <= i < |x| ensures (x + "\n" + xs)[i] != '\n' {
      assert (x + "\n" + xs)[i] == x[i];
    }
  }

  /** Two lines, each followed by a newline, agree when the texts agree. */
  lemma LineHeadUnique(x: string, xs: string, y: string, ys: string)
    requires NoNewline(x) && NoNewline(y)
    requires x + "\n" + xs == y + "\n" + ys
    ensures x == y && xs == ys
  {
    var s := x + "\n" + xs;
    FirstNewline(x, xs);
    FirstNewline(y, ys);
    assert |x| == |y|;
    assert x == s[..|x|] == y;
    assert xs == s[|x| + 1..] == ys;
  }

  /** Lines plus a fragment are free of newlines only when there are no lines. */
  lemma UnlinesNewlineFree(a: seq<string>, b: string)
    requires NoNewline(b)
    ensures a == [] ==> Unlines(a) + b == b
    ensures NoNewline(Unlines(a) + b) <==> a == []
  {
    if a == [] {
      assert Unlines(a) == [];
      assert Unlines(a) + b == b;
    } else {
      assert Unlines(a) + b == a[0] + "\n" + (Unlines(a[1..]) + b);
      assert (Unlines(a) + b)[|a[0]|] == '\n';
    }
  }

  /** A text determines its complete lines and its trailing fragment: there is
      only one way to write it as newline-terminated lines plus a fragment. */
  lemma {:induction false} UnlinesUnique(a: seq<string>, b: string, c: seq<string>, d: string)
    requires AllNoNewline(a) && NoNewline(b) && AllNoNewline(c) && NoNewline(d)
    requires Unlines(a) + b == Unlines(c) + d
    ensures a == c && b == d
    decreases |a|
  {
    UnlinesNewlineFree(a, b);
    UnlinesNewlineFree(c, d);
    if a != [] {
      assert Unlines(c) + d == c[0] + "\n" + (Unlines(c[1..]) + d);
      assert Unlines(a) + b == a[0] + "\n" + (Unlines(a[1..]) + b);
      LineHeadUnique(a[0], Unlines(a[1..]) + b, c[0], Unlines(c[1..]) + d);
      assert AllNoNewline(a[1..]) by { forall i | 0 <= i < |a[1..]| ensures NoNewline(a[1..][i]) { assert a[1..][i] == a[i + 1]; } }
      assert AllNoNewline(c[1..]) by { forall i | 0 <= i < |c[1..]| ensures NoNewline(c[1..][i]) { assert c[1..][i] == c[i + 1]; } }
      UnlinesUnique(a[1..], b, c[1..], d);
      assert a == [a[0]] + a[1..];
      assert c == [c[0]] + c[1..];
    }
  }

  /** Splitting after appending more text: the lines already complete stay, and
      the old fragment plus the new text supplies the rest. This is what makes
      a carry buffer independent of where the text was cut. */
  lemma AllNoNewlineAppend(a: seq<string>, b: seq<string>)
    requires AllNoNewline(a) && AllNoNewline(b)
    ensures AllNoNewline(a + b)
  {
    forall i | 0 <= i < |a + b| ensures NoNewline((a + b)[i]) {
      if i < |a| {
        assert (a + b)[i] == a[i];
      } else {
        assert (a + b)[i] == b[i - |a|];
      }
    }
  }

  /** Two splits in a row reassemble the joined text. */
  lemma UnlinesTwice(l1: seq<string>, r1: string, l2: seq<string>, r2: string, s: string, t: string)
    requires Unlines(l1) + r1 == s && Unlines(l2) + r2 == r1 + t
    ensures Unlines(l1 + l2) + r2 == s + t
  {
    UnlinesAppend(l1, l2);
    var u1, u2 := Unlines(l1), Unlines(l2);
    assert u1 + u2 + r2 == u1 + (u2 + r2);
    assert u1 + (r1 + t) == (u1 + r1) + t;
  }

  lemma SplitLinesAppend(s: string, t: string)
    ensures SplitLines(s + t) ==
      (SplitLines(s).0 + SplitLines(SplitLines(s).1 + t).0, SplitLines(SplitLines(s).1 + t).1)
  {
    var l1, r1 := SplitLines(s).0, SplitLines(s).1;
    var l2, r2 := SplitLines(r1 + t).0, SplitLines(r1 + t).1;
    var l, r := SplitLines(s + t).0, SplitLines(s + t).1;
    UnlinesTwice(l1, r1, l2, r2, s, t);
    AllNoNewlineAppend(l1, l2);
    UnlinesUnique(l, r, l1 + l2, r2);
  }

  /** The strings of `ss` joined end to end. */
  function Concat(ss: seq<string>): string
  {
    if ss == [] then [] else Concat(ss[..|ss| - 1]) + ss[|ss| - 1]
  }

  lemma ConcatAppend(ss: seq<string>, s: string)
    ensures Concat(ss + [s]) == Concat(ss) + s
  {
    assert (ss + [s])[..|ss|] == ss;
  }

  /** `s.replace(/c/g, rep)` for a one-character pattern. */
  function ReplaceChar(s: string, c: char, rep: string): string
  {
    if s == [] then [] else (if s[0] == c then rep else [s[0]]) + ReplaceChar(s[1..], c, rep)
  }

  lemma {:induction false} ReplaceCharAppend(a: string, b: string, c: char, rep: string)
    ensures ReplaceChar(a + b, c, rep) == ReplaceChar(a, c, rep) + ReplaceChar(b, c, rep)
  {
    if a == [] {
      assert a + b == b;
      assert ReplaceChar(a, c, rep) + ReplaceChar(b, c, rep) == ReplaceChar(b, c, rep);
    } else {
      assert (a + b)[0] == a[0];
      assert (a + b)[1..] == a[1..] + b;
      ReplaceCharAppend(a[1..], b, c, rep);
    }
  }

  lemma {:induction false} ReplaceCharAbsent(s: string, c: char, rep: string)
    requires c !in s
    ensures ReplaceChar(s, c, rep) == s
  {
    if s != [] {
      ReplaceCharAbsent(s[1..], c, rep);
    }
  }
}
