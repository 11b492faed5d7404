/** `MarkdownRenderer` of lib/markdownRenderer.js: HTML escaping, the four
    delimiter rewrites applied in order, and the choice between markup and
    plain text in `render`. Whether Pango accepts a markup string is a
    parameter. */
module MarkdownLib {
  import opened Wrappers
  import opened Text
  import opened Labels
  import Seqs

  /* ---------- _escapeHtml ---------- */

  /** `_escapeHtml`: five global replacements, `&` first. */
  function EscapeHtml(s: string): string
  {
    var amp := ReplaceChar(s, '&', "&amp;");
    var lt := ReplaceChar(amp, '<', "&lt;");
    var gt := ReplaceChar(lt, '>', "&gt;");
    var quot := ReplaceChar(gt, '"', "&quot;");
    ReplaceChar(quot, '\'', "&#39;")
  }

  /** The entity one character becomes. */
  function HtmlEntity(c: char): string
  {
    if c == '&' then "&amp;"
    else if c == '<' then "&lt;"
    else if c == '>' then "&gt;"
    else if c == '"' then "&quot;"
    else if c == '\'' then "&#39;"
    else [c]
  }

  /** Reference definition: every character replaced by its entity at once. */
  function HtmlEscaped(s: string): string
  {
    if s == [] then [] else HtmlEntity(s[0]) + HtmlEscaped(s[1..])
  }

  lemma ReplaceCharOne(c: char, t: char, rep: string)
    ensures ReplaceChar([c], t, rep) == if c == t then rep else [c]
  {
    assert [c][1..] == [];
  }

  /** The steps after the first leave a string without their characters
      alone; stated on a variable so that no entity literal gets unfolded. */
  lemma EscapeTailAbsent(x: string, from: nat)
    requires 1 <= from <= 4
    requires from <= 1 ==> '<' !in x
    requires from <= 2 ==> '>' !in x
    requires from <= 3 ==> '"' !in x
    requires '\'' !in x
    ensures from == 1 ==> ReplaceChar(ReplaceChar(ReplaceChar(ReplaceChar(x, '<', "&lt;"), '>', "&gt;"), '"', "&quot;"), '\'', "&#39;") == x
    ensures from == 2 ==> ReplaceChar(ReplaceChar(ReplaceChar(x, '>', "&gt;"), '"', "&quot;"), '\'', "&#39;") == x
    ensures from == 3 ==> ReplaceChar(ReplaceChar(x, '"', "&quot;"), '\'', "&#39;") == x
    ensures from == 4 ==> ReplaceChar(x, '\'', "&#39;") == x
  {
    if from <= 1 {
      ReplaceCharAbsent(x, '<', "&lt;");
    }
    if from <= 2 {
      ReplaceCharAbsent(x, '>', "&gt;");
    }
    if from <= 3 {
      ReplaceCharAbsent(x, '"', "&quot;");
    }
    ReplaceCharAbsent(x, '\'', "&#39;");
  }

  lemma EscapeHtmlChar(c: char)
    ensures EscapeHtml([c]) == HtmlEntity(c)
  {
    ReplaceCharOne(c, '&', "&amp;");
    if c == '&' {
      EscapeTailAbsent(ReplaceChar([c], '&', "&amp;"), 1);
      return;
    }
    ReplaceCharOne(c, '<', "&lt;");
    if c == '<' {
      EscapeTailAbsent(ReplaceChar([c], '<', "&lt;"), 2);
      return;
    }
    ReplaceCharOne(c, '>', "&gt;");
    if c == '>' {
      EscapeTailAbsent(ReplaceChar([c], '>', "&gt;"), 3);
      return;
    }
    ReplaceCharOne(c, '"', "&quot;");
    if c == '"' {
      EscapeTailAbsent(ReplaceChar([c], '"', "&quot;"), 4);
      return;
    }
    ReplaceCharOne(c, '\'', "&#39;");
  }

  lemma EscapeHtmlAppend(a: string, b: string)
    ensures EscapeHtml(a + b) == EscapeHtml(a) + EscapeHtml(b)
  {
    var amp := ReplaceChar(a + b, '&', "&amp;");
    ReplaceCharAppend(a, b, '&', "&amp;");
    var ampA, ampB := ReplaceChar(a, '&', "&amp;"), ReplaceChar(b, '&', "&amp;");
    ReplaceCharAppend(ampA, ampB, '<', "&lt;");
    var ltA, ltB := ReplaceChar(ampA, '<', "&lt;"), ReplaceChar(ampB, '<', "&lt;");
    ReplaceCharAppend(ltA, ltB, '>', "&gt;");
    var gtA, gtB := ReplaceChar(ltA, '>', "&gt;"), ReplaceChar(ltB, '>', "&gt;");
    ReplaceCharAppend(gtA, gtB, '"', "&quot;");
    var quotA, quotB := ReplaceChar(gtA, '"', "&quot;"), ReplaceChar(gtB, '"', "&quot;");
    ReplaceCharAppend(quotA, quotB, '\'', "&#39;");
  }

  /** Because `&` is replaced first, no entity inserted by a later step is
      escaped again: the chain escapes every character independently. */
  lemma {:induction false} EscapeHtmlPerChar(s: string)
    ensures EscapeHtml(s) == HtmlEscaped(s)
    decreases |s|
  {
    if s == [] {
    } else {
      assert s == [s[0]] + s[1..];
      EscapeHtmlAppend([s[0]], s[1..]);
      EscapeHtmlChar(s[0]);
      EscapeHtmlPerChar(s[1..]);
    }
  }

  /** No entity holds a raw `<`, `>`, `"` or `'`. */
  lemma EntityNoSpecials(c: char)
    ensures var e := HtmlEntity(c);
      '<' !in e && '>' !in e && '"' !in e && '\'' !in e
  {
  }

  lemma {:induction false} HtmlEscapedNoSpecials(s: string)
    ensures var r := HtmlEscaped(s);
      '<' !in r && '>' !in r && '"' !in r && '\'' !in r
    decreases |s|
  {
    if s != [] {
      var e, rest := HtmlEntity(s[0]), HtmlEscaped(s[1..]);
      HtmlEscapedNoSpecials(s[1..]);
      EntityNoSpecials(s[0]);
      assert HtmlEscaped(s) == e + rest;
    }
  }

  /** The output holds no raw `<`, `>`, `"` or `'`. */
  lemma EscapeHtmlNoSpecials(s: string)
    ensures var r := EscapeHtml(s);
      '<' !in r && '>' !in r && '"' !in r && '\'' !in r
  {
    EscapeHtmlPerChar(s);
    HtmlEscapedNoSpecials(s);
  }

  /** `_escapeHtml` changes nothing in a string without `&<>"'`. */
  lemma EscapeHtmlIdentity(s: string)
    requires '&' !in s && '<' !in s && '>' !in s && '"' !in s && '\'' !in s
    ensures EscapeHtml(s) == s
  {
    ReplaceCharAbsent(s, '&', "&amp;");
    ReplaceCharAbsent(s, '<', "&lt;");
    ReplaceCharAbsent(s, '>', "&gt;");
    ReplaceCharAbsent(s, '"', "&quot;");
    ReplaceCharAbsent(s, '\'', "&#39;");
  }

  predicate HtmlEntityAt(r: string, i: int)
  {
    OccursAt(r, "&amp;", i) || OccursAt(r, "&lt;", i) || OccursAt(r, "&gt;", i) ||
    OccursAt(r, "&quot;", i) || OccursAt(r, "&#39;", i)
  }

  lemma EntityShift(e: string, r: string, i: int)
    requires HtmlEntityAt(r, i)
    ensures HtmlEntityAt(e + r, i + |e|)
  {
    if OccursAt(r, "&amp;", i) {
      OccursShift(e, r, "&amp;", i);
    } else if OccursAt(r, "&lt;", i) {
      OccursShift(e, r, "&lt;", i);
    } else if OccursAt(r, "&gt;", i) {
      OccursShift(e, r, "&gt;", i);
    } else if OccursAt(r, "&quot;", i) {
      OccursShift(e, r, "&quot;", i);
    } else {
      OccursShift(e, r, "&#39;", i);
    }
  }

  /** The only `&` an entity holds is its first character. */
  lemma EntityStart(c: char, rest: string, i: int)
    requires 0 <= i < |HtmlEntity(c)| && HtmlEntity(c)[i] == '&'
    ensures HtmlEntityAt(HtmlEntity(c) + rest, i)
  {
    var e := HtmlEntity(c);
    assert i == 0;
    assert (e + rest)[0..|e|] == e;
  }

  /** An `&` of one entity followed by well-formed output starts an entity. */
  lemma AmpersandAfterEntity(c: char, rest: string, i: int)
    requires forall j :: 0 <= j < |rest| && rest[j] == '&' ==> HtmlEntityAt(rest, j)
    requires 0 <= i < |HtmlEntity(c) + rest| && (HtmlEntity(c) + rest)[i] == '&'
    ensures HtmlEntityAt(HtmlEntity(c) + rest, i)
  {
    var e := HtmlEntity(c);
    if i < |e| {
      EntityStart(c, rest, i);
    } else {
      assert rest[i - |e|] == '&';
      EntityShift(e, rest, i - |e|);
    }
  }

  lemma {:induction false} HtmlEscapedAmpersands(s: string)
    ensures forall i :: 0 <= i < |HtmlEscaped(s)| && HtmlEscaped(s)[i] == '&' ==> HtmlEntityAt(HtmlEscaped(s), i)
    decreases |s|
  {
    if s != [] {
      var e, rest := HtmlEntity(s[0]), HtmlEscaped(s[1..]);
      HtmlEscapedAmpersands(s[1..]);
      var r := e + rest;
      assert HtmlEscaped(s) == r;
      forall i | 0 <= i < |r| && r[i] == '&'
        ensures HtmlEntityAt(r, i)
      {
        AmpersandAfterEntity(s[0], rest, i);
      }
    }
  }

  /** Every `&` of the output starts one of the five entities. */
  lemma EscapeHtmlAmpersands(s: string)
    ensures var r := EscapeHtml(s);
      forall i :: 0 <= i < |r| && r[i] == '&' ==> HtmlEntityAt(r, i)
  {
    EscapeHtmlPerChar(s);
    HtmlEscapedAmpersands(s);
  }

  /** Decoding the five entities, left to right. */
  function UnescapeHtml(s: string): string
  {
    if s == [] then []
    else if s[0] != '&' then [s[0]] + UnescapeHtml(s[1..])
    else if "&amp;" <= s then "&" + UnescapeHtml(s[5..])
    else if "&lt;" <= s then "<" + UnescapeHtml(s[4..])
    else if "&gt;" <= s then ">" + UnescapeHtml(s[4..])
    else if "&quot;" <= s then "\"" + UnescapeHtml(s[6..])
    else if "&#39;" <= s then "'" + UnescapeHtml(s[5..])
    else [s[0]] + UnescapeHtml(s[1..])
  }

  lemma UnescapeEntity(c: char, rest: string)
    ensures UnescapeHtml(HtmlEntity(c) + rest) == [c] + UnescapeHtml(rest)
  {
    var r := HtmlEntity(c) + rest;
    if c == '&' {
      assert "&amp;" <= r && r[5..] == rest;
    } else if c == '<' {
      assert r[1] == 'l';
      assert "&lt;" <= r && r[4..] == rest;
    } else if c == '>' {
      assert r[1] == 'g';
      assert "&gt;" <= r && r[4..] == rest;
    } else if c == '"' {
      assert r[1] == 'q';
      assert "&quot;" <= r && r[6..] == rest;
    } else if c == '\'' {
      assert r[1] == '#';
      assert "&#39;" <= r && r[5..] == rest;
    } else {
      assert r[0] == c && r[1..] == rest;
    }
  }

  lemma {:induction false} UnescapeEscaped(s: string)
    ensures UnescapeHtml(HtmlEscaped(s)) == s
    decreases |s|
  {
    if s != [] {
      UnescapeEscaped(s[1..]);
      UnescapeEntity(s[0], HtmlEscaped(s[1..]));
      assert s == [s[0]] + s[1..];
    }
  }

  /** Escaping loses nothing: decoding gives the input back. */
  lemma EscapeHtmlRoundTrip(s: string)
    ensures UnescapeHtml(EscapeHtml(s)) == s
  {
    EscapeHtmlPerChar(s);
    UnescapeEscaped(s);
  }

  /* ---------- the delimiter rewrites ---------- */

  /** The four entries of `_patterns`, in their order. */
  datatype Pattern = CodeBlock | InlineCode | Bold | Italic
  {
    /** The character the content may not hold; the delimiter repeats it. */
    function Excluded(): char
    {
      match this
      case CodeBlock => '`'
      case InlineCode => '`'
      case Bold => '*'
      case Italic => '*'
    }

    /** How many times the delimiter repeats that character. */
    function Width(): (n: nat)
      ensures n >= 1
    {
      match this
      case CodeBlock => 3
      case InlineCode => 1
      case Bold => 2
      case Italic => 1
    }

    function Delimiter(): (d: string)
      ensures |d| == Width() && forall i :: 0 <= i < |d| ==> d[i] == Excluded()
    {
      match this
      case CodeBlock => "```"
      case InlineCode => "`"
      case Bold => "**"
      case Italic => "*"
    }

    /** The `replace` callback for the captured content. */
    function Wrap(content: string): string
    {
      match this
      case CodeBlock => "<span class=\"gnomellm-code-block\">" + EscapeHtml(Trim(content)) + "</span>"
      case InlineCode => "<span class=\"gnomellm-inline-code\">" + EscapeHtml(content) + "</span>"
      case Bold => "<b>" + content + "</b>"
      case Italic => "<i>" + content + "</i>"
    }
  }

  const Patterns: seq<Pattern> := [CodeBlock, InlineCode, Bold, Italic]

  /** `s` starts with the delimiter, `k > 0` characters of content without
      the excluded one, and the delimiter again: what the pattern matches,
      `k` being the length of the captured group. */
  predicate IsMatch(p: Pattern, s: string, k: nat)
  {
    var n := p.Width();
    0 < k && 2 * n + k <= |s| && s[..n] == p.Delimiter() && p.Excluded() !in s[n..n + k]
    && s[n + k..2 * n + k] == p.Delimiter()
  }

  /** Whether the pattern matches at the start of `s`, and the length of its
      content. The content cannot hold the excluded character, so it runs to
      the first one and no shorter choice can help: there is at most one
      match, and it is found exactly when there is one. */
  function MatchAt(p: Pattern, s: string): (m: Option<nat>)
    ensures m.Some? ==> IsMatch(p, s, m.value)
    ensures forall k: nat :: IsMatch(p, s, k) ==> m == Some(k)
    ensures s != [] && s[0] != p.Excluded() ==> m.None?
  {
    MatchRunIsMatch(p, s);
    MatchRun(s, p.Excluded(), p.Width())
  }

  /** The scan for any delimiter of `n >= 1` copies of `c`. */
  function MatchRun(s: string, c: char, n: nat): (m: Option<nat>)
    requires n >= 1
    ensures m.Some? ==> 0 < m.value && 2 * n + m.value <= |s|
    ensures s != [] && s[0] != c ==> m.None?
  {
    if LeadingRun(s, c) >= n then
      var k := RunWithout(s[n..], c);
      if 0 < k && LeadingRun(s[n + k..], c) >= n then Some(k) else None
    else None
  }

  /** `n` leading copies of the delimiter's character are the delimiter. */
  lemma DelimiterPrefix(p: Pattern, s: string)
    requires LeadingRun(s, p.Excluded()) >= p.Width()
    ensures p.Width() <= |s| && s[..p.Width()] == p.Delimiter()
  {
    var n, d := p.Width(), p.Delimiter();
    forall i | 0 <= i < n ensures s[..n][i] == d[i] {
      LeadingRunAt(s, p.Excluded(), i);
    }
  }

  /** What the scan checked when it found content of length `k`. */
  lemma MatchRunFound(s: string, c: char, n: nat)
    requires n >= 1
    ensures var m := MatchRun(s, c, n);
      m.Some? ==>
        LeadingRun(s, c) >= n && m.value == RunWithout(s[n..], c) && LeadingRun(s[n + m.value..], c) >= n
  {
  }

  /** What the scan finds is a match. */
  lemma MatchRunSound(p: Pattern, s: string)
    ensures var m := MatchRun(s, p.Excluded(), p.Width());
      m.Some? ==> IsMatch(p, s, m.value)
  {
    var c, n, d := p.Excluded(), p.Width(), p.Delimiter();
    var m := MatchRun(s, c, n);
    MatchRunFound(s, c, n);
    if m.Some? {
      var k := m.value;
      var tail, after := s[n..], s[n + k..];
      DelimiterPrefix(p, s);
      assert s[..n] == d;
      RunWithoutFree(tail, c);
      Seqs.TakeOfDrop(s, n, n + k);
      assert c !in s[n..n + k];
      DelimiterPrefix(p, after);
      Seqs.TakeOfDrop(s, n + k, 2 * n + k);
      assert s[n + k..2 * n + k] == d;
    }
  }

  /** Every match is found. */
  lemma MatchRunComplete(p: Pattern, s: string, k: nat)
    requires IsMatch(p, s, k)
    ensures MatchRun(s, p.Excluded(), p.Width()) == Some(k)
  {
    var n, d := p.Width(), p.Delimiter();
    var content, b := s[n..n + k], s[2 * n + k..];
    Seqs.SliceFour(s, n, n + k, 2 * n + k);
    MatchRunDelimited(d, content, b, p.Excluded());
  }

  lemma MatchRunIsMatch(p: Pattern, s: string)
    ensures var m := MatchRun(s, p.Excluded(), p.Width());
      (m.Some? ==> IsMatch(p, s, m.value)) && (forall k: nat :: IsMatch(p, s, k) ==> m == Some(k))
  {
    MatchRunSound(p, s);
    forall k: nat | IsMatch(p, s, k) ensures MatchRun(s, p.Excluded(), p.Width()) == Some(k) {
      MatchRunComplete(p, s, k);
    }
  }

  /** One step of the scan at the start of a non-empty `s`: what it emits
      and how much of `s` it consumes. */
  function Step(p: Pattern, s: string): (r: (string, nat))
    requires s != []
    ensures 1 <= r.1 <= |s|
  {
    match MatchAt(p, s)
    case Some(k) =>
      var n := p.Width();
      (p.Wrap(s[n..n + k]), 2 * n + k)
    case None => ([s[0]], 1)
  }

  /** `s.replace(pattern, replace)` with a global pattern: scan from the
      left, rewrite each match and continue after it, copy anything else. */
  function Rewrite(p: Pattern, s: string): string
    decreases |s|
  {
    if s == [] then []
    // a match can only start at the delimiter's character
    else if s[0] != p.Excluded() then [s[0]] + Rewrite(p, s[1..])
    else
      var step := Step(p, s);
      step.0 + Rewrite(p, s[step.1..])
  }

  /** A character other than the pattern's cannot start a match: it is
      copied. */
  lemma RewriteCopy(p: Pattern, t: string)
    requires t != [] && t[0] != p.Excluded()
    ensures Rewrite(p, t) == [t[0]] + Rewrite(p, t[1..])
  {
  }

  /** At the pattern's character the scan takes one step. */
  lemma RewriteScan(p: Pattern, t: string)
    requires t != [] && t[0] == p.Excluded()
    ensures Rewrite(p, t) == Step(p, t).0 + Rewrite(p, t[Step(p, t).1..])
  {
  }

  /** Where no delimited span starts, the first character is copied and the
      scan moves on by one, whatever that character is. */
  lemma RewriteNoMatch(p: Pattern, t: string)
    requires t != [] && forall k: nat :: !IsMatch(p, t, k)
    ensures Rewrite(p, t) == [t[0]] + Rewrite(p, t[1..])
  {
    if t[0] == p.Excluded() {
      RewriteScan(p, t);
      assert MatchAt(p, t).None?;
    }
  }

  /** Text without the pattern's character is left alone. */
  lemma {:induction false} RewriteIdentity(p: Pattern, s: string)
    requires p.Excluded() !in s
    ensures Rewrite(p, s) == s
    decreases |s|
  {
    if s != [] {
      RewriteCopy(p, s);
      RewriteIdentity(p, s[1..]);
      assert s == [s[0]] + s[1..];
    }
  }

  /** A prefix without the pattern's character is copied, and the scan goes
      on after it. */
  lemma {:induction false} RewritePlainPrefix(p: Pattern, a: string, s: string)
    requires p.Excluded() !in a
    ensures Rewrite(p, a + s) == a + Rewrite(p, s)
    decreases |a|
  {
    if a != [] {
      var t, rest := a + s, a[1..];
      assert a == [a[0]] + rest;
      assert t[0] == a[0] && t[1..] == rest + s;
      RewriteCopy(p, t);
      RewritePlainPrefix(p, rest, s);
    } else {
      assert a + s == s;
    }
  }

  /** A span of content between two delimiters, as the pattern expects it. */
  function Delimited(p: Pattern, content: string): string
  {
    p.Delimiter() + content + p.Delimiter()
  }

  /** Delimiters of `c` around content free of `c` are matched, with the
      whole content captured. */
  lemma MatchRunDelimited(d: string, content: string, b: string, c: char)
    requires |d| >= 1 && forall i :: 0 <= i < |d| ==> d[i] == c
    requires c !in content && content != []
    ensures MatchRun(d + content + d + b, c, |d|) == Some(|content|)
  {
    var n := |d|;
    var t := d + content + d + b;
    assert t == d + (content + d + b);
    LeadingRunOfPrefix(d, content + d + b, c);
    assert t[n..] == content + (d + b);
    RunWithoutPrefix(content, d + b, c);
    assert t[n + |content|..] == d + b;
    LeadingRunOfPrefix(d, b, c);
  }

  /** At a match the captured content is wrapped and the scan goes on after
      the closing delimiter. */
  lemma RewriteAtMatch(p: Pattern, t: string, k: nat)
    requires IsMatch(p, t, k)
    ensures Rewrite(p, t) == p.Wrap(t[p.Width()..p.Width() + k]) + Rewrite(p, t[2 * p.Width() + k..])
  {
    MatchStep(p, t, k);
    RewriteScan(p, t);
    var step := Step(p, t);
    assert step.0 == p.Wrap(t[p.Width()..p.Width() + k]);
    assert t[step.1..] == t[2 * p.Width() + k..];
  }

  /** At a match, one step of the scan emits the wrapped content and consumes
      the whole match. */
  lemma MatchStep(p: Pattern, t: string, k: nat)
    requires IsMatch(p, t, k)
    ensures t != [] && t[0] == p.Excluded()
    ensures Step(p, t) == (p.Wrap(t[p.Width()..p.Width() + k]), 2 * p.Width() + k)
  {
    assert t[..p.Width()][0] == p.Delimiter()[0];
    StepAt(p, t, k);
  }

  lemma StepAt(p: Pattern, t: string, k: nat)
    requires t != [] && MatchAt(p, t) == Some(k)
    ensures Step(p, t) == (p.Wrap(t[p.Width()..p.Width() + k]), 2 * p.Width() + k)
  {
  }

  lemma SpanParts(d: string, content: string, b: string)
    ensures var t := d + content + d + b;
      t[..|d|] == d && t[|d|..|d| + |content|] == content &&
      t[|d| + |content|..2 * |d| + |content|] == d && t[2 * |d| + |content|..] == b
  {
  }

  /** A delimited span is replaced by its wrapping, and the scan goes on with
      whatever follows it. */
  lemma RewriteDelimitedThenRest(p: Pattern, content: string, rest: string)
    requires p.Excluded() !in content && content != []
    ensures Rewrite(p, Delimited(p, content) + rest) == p.Wrap(content) + Rewrite(p, rest)
  {
    var d := p.Delimiter();
    var t := Delimited(p, content) + rest;
    assert t == d + content + d + rest;
    SpanParts(d, content, rest);
    var n, k := p.Width(), |content|;
    assert t[n..n + k] == content && t[2 * n + k..] == rest;
    assert IsMatch(p, t, k);
    RewriteAtMatchParts(p, t, k, content, rest);
  }

  /** `RewriteAtMatch` with the content and what follows the match named. */
  lemma RewriteAtMatchParts(p: Pattern, t: string, k: nat, content: string, rest: string)
    requires IsMatch(p, t, k)
    requires content == t[p.Width()..p.Width() + k] && rest == t[2 * p.Width() + k..]
    ensures Rewrite(p, t) == p.Wrap(content) + Rewrite(p, rest)
  {
    RewriteAtMatch(p, t, k);
  }

  lemma RewriteSpan(p: Pattern, content: string, b: string)
    requires p.Excluded() !in content && p.Excluded() !in b
    requires content != []
    ensures Rewrite(p, Delimited(p, content) + b) == p.Wrap(content) + b
  {
    RewriteDelimitedThenRest(p, content, b);
    RewriteIdentity(p, b);
  }

  /** One delimited span between plain text is replaced by its wrapping. */
  lemma RewriteSingle(p: Pattern, a: string, content: string, b: string)
    requires p.Excluded() !in a && p.Excluded() !in content && p.Excluded() !in b
    requires content != []
    ensures Rewrite(p, a + Delimited(p, content) + b) == a + p.Wrap(content) + b
  {
    var t := Delimited(p, content) + b;
    assert a + Delimited(p, content) + b == a + t;
    RewritePlainPrefix(p, a, t);
    RewriteSpan(p, content, b);
  }

  /** The patterns applied in order, each to the previous result. */
  function ApplyAll(s: string, ps: seq<Pattern>): string
  {
    if ps == [] then s else Rewrite(ps[|ps| - 1], ApplyAll(s, ps[..|ps| - 1]))
  }

  lemma ApplyAllStep(s: string, ps: seq<Pattern>, i: nat)
    requires i < |ps|
    ensures ApplyAll(s, ps[..i + 1]) == Rewrite(ps[i], ApplyAll(s, ps[..i]))
  {
    assert ps[..i + 1][..i] == ps[..i];
  }

  /** The order of `_patterns`: code block, inline code, bold, italic. */
  lemma PatternOrder(s: string)
    ensures ApplyAll(s, Patterns) == Rewrite(Italic, Rewrite(Bold, Rewrite(InlineCode, Rewrite(CodeBlock, s))))
  {
    assert Patterns[..0] == [];
    ApplyAllStep(s, Patterns, 0);
    ApplyAllStep(s, Patterns, 1);
    ApplyAllStep(s, Patterns, 2);
    ApplyAllStep(s, Patterns, 3);
    assert Patterns[..4] == Patterns;
  }

  /* ---------- render ---------- */

  /** What `render` leaves in the label: nothing for empty input; the
      rewritten text, set as markup when it holds both `<` and `>` and Pango
      accepts it, the original text when Pango rejects it. */
  function RenderLabel(text: string, accepts: string -> bool): Label
  {
    if text == [] then Plain([])
    else
      var processed := ApplyAll(text, Patterns);
      if Contains(processed, "<") && Contains(processed, ">") then
        if accepts(processed) then Markup(processed) else Plain(text)
      else Plain(processed)
  }

  /** `render(text)`, with the `forEach` over `_patterns` as a loop. */
  method Render(text: string, accepts: string -> bool) returns (shown: Label)
    ensures shown == RenderLabel(text, accepts)
  {
    if text == [] {
      return Plain([]);
    }
    var processed := text;
    var i := 0;
    while i < |Patterns|
      invariant 0 <= i <= |Patterns|
      invariant processed == ApplyAll(text, Patterns[..i])
    {
      ApplyAllStep(text, Patterns, i);
      processed := Rewrite(Patterns[i], processed);
      i := i + 1;
    }
    assert Patterns[..i] == Patterns;
    shown := Plain(processed);
    if Contains(processed, "<") && Contains(processed, ">") {
      if accepts(processed) {
        shown := Markup(processed);
      } else {
        shown := Plain(text);
      }
    }
  }

  /** Text with no backtick, no asterisk and not both `<` and `>` is shown as
      it is. */
  lemma RenderPlainText(text: string, accepts: string -> bool)
    requires text != [] && '`' !in text && '*' !in text
    requires !(Contains(text, "<") && Contains(text, ">"))
    ensures RenderLabel(text, accepts) == Plain(text)
  {
    RewriteIdentity(CodeBlock, text);
    RewriteIdentity(InlineCode, text);
    RewriteIdentity(Bold, text);
    RewriteIdentity(Italic, text);
    PatternOrder(text);
  }
}
