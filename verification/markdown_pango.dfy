/** `MarkdownRenderer` of build/GnomeLLM@luishg.github.io/lib/markdownRenderer.js:
    Pango escaping, the last three steps of `_htmlToPango` (strip remaining
    tags, collapse runs of newlines, trim) and the fallbacks of `render`.
    The markdown conversion before those steps is a parameter. */
module MarkdownPango {
  import opened Wrappers
  import opened Text
  import opened Labels

  /* ---------- _escapePango ---------- */

  /** `_escapePango`: three global replacements, `&` first. */
  function EscapePango(s: string): string
  {
    var amp := ReplaceChar(s, '&', "&amp;");
    var lt := ReplaceChar(amp, '<', "&lt;");
    ReplaceChar(lt, '>', "&gt;")
  }

  function PangoEntity(c: char): string
  {
    if c == '&' then "&amp;" else if c == '<' then "&lt;" else if c == '>' then "&gt;" else [c]
  }

  /** Reference definition: every character replaced by its entity at once. */
  function PangoEscaped(s: string): string
  {
    if s == [] then [] else PangoEntity(s[0]) + PangoEscaped(s[1..])
  }

  lemma ReplaceCharOne(c: char, t: char, rep: string)
    ensures ReplaceChar([c], t, rep) == if c == t then rep else [c]
  {
    assert [c][1..] == [];
  }

  /** The steps after the first leave a string without their characters
      alone; stated on a variable so that no entity literal gets unfolded. */
  lemma EscapeTailAbsent(x: string, from: nat)
    requires 1 <= from <= 2
    requires from == 1 ==> '<' !in x
    requires '>' !in x
    ensures from == 1 ==> ReplaceChar(ReplaceChar(x, '<', "&lt;"), '>', "&gt;") == x
    ensures from == 2 ==> ReplaceChar(x, '>', "&gt;") == x
  {
    if from == 1 {
      ReplaceCharAbsent(x, '<', "&lt;");
    }
    ReplaceCharAbsent(x, '>', "&gt;");
  }

  lemma EscapePangoChar(c: char)
    ensures EscapePango([c]) == PangoEntity(c)
  {
    ReplaceCharOne(c, '&', "&amp;");
    if c == '&' {
      EscapeTailAbsent(ReplaceChar([c], '&', "&amp;"), 1);
      return;
    }
    ReplaceCharOne(c, '<', "&lt;");
    if c == '<' {
      EscapeTailAbsent(ReplaceChar([c], '<', "&lt;"), 2);
      return;
    }
    ReplaceCharOne(c, '>', "&gt;");
  }

  lemma EscapePangoAppend(a: string, b: string)
    ensures EscapePango(a + b) == EscapePango(a) + EscapePango(b)
  {
    ReplaceCharAppend(a, b, '&', "&amp;");
    var ampA, ampB := ReplaceChar(a, '&', "&amp;"), ReplaceChar(b, '&', "&amp;");
    ReplaceCharAppend(ampA, ampB, '<', "&lt;");
    var ltA, ltB := ReplaceChar(ampA, '<', "&lt;"), ReplaceChar(ampB, '<', "&lt;");
    ReplaceCharAppend(ltA, ltB, '>', "&gt;");
  }

  /** Because `&` is replaced first, the entities inserted for `<` and `>`
      are not escaped again: the chain escapes each character on its own. */
  lemma {:induction false} EscapePangoPerChar(s: string)
    ensures EscapePango(s) == PangoEscaped(s)
    decreases |s|
  {
    if s != [] {
      assert s == [s[0]] + s[1..];
      EscapePangoAppend([s[0]], s[1..]);
      EscapePangoChar(s[0]);
      EscapePangoPerChar(s[1..]);
    }
  }

  lemma EntityNoBrackets(c: char)
    ensures '<' !in PangoEntity(c) && '>' !in PangoEntity(c)
  {
  }

  lemma {:induction false} PangoEscapedNoBrackets(s: string)
    ensures '<' !in PangoEscaped(s) && '>' !in PangoEscaped(s)
    decreases |s|
  {
    if s != [] {
      PangoEscapedNoBrackets(s[1..]);
      EntityNoBrackets(s[0]);
      assert PangoEscaped(s) == PangoEntity(s[0]) + PangoEscaped(s[1..]);
    }
  }

  /** The output holds no raw `<` or `>`. */
  lemma EscapePangoNoBrackets(s: string)
    ensures '<' !in EscapePango(s) && '>' !in EscapePango(s)
  {
    EscapePangoPerChar(s);
    PangoEscapedNoBrackets(s);
  }

  /** `_escapePango` changes nothing in a string without `&`, `<` or `>`. */
  lemma EscapePangoIdentity(s: string)
    requires '&' !in s && '<' !in s && '>' !in s
    ensures EscapePango(s) == s
  {
    ReplaceCharAbsent(s, '&', "&amp;");
    ReplaceCharAbsent(s, '<', "&lt;");
    ReplaceCharAbsent(s, '>', "&gt;");
  }

  predicate PangoEntityAt(r: string, i: int)
  {
    OccursAt(r, "&amp;", i) || OccursAt(r, "&lt;", i) || OccursAt(r, "&gt;", i)
  }

  lemma EntityShift(e: string, r: string, i: int)
    requires PangoEntityAt(r, i)
    ensures PangoEntityAt(e + r, i + |e|)
  {
    if OccursAt(r, "&amp;", i) {
      OccursShift(e, r, "&amp;", i);
    } else if OccursAt(r, "&lt;", i) {
      OccursShift(e, r, "&lt;", i);
    } else {
      OccursShift(e, r, "&gt;", i);
    }
  }

  lemma EntityStart(c: char, rest: string, i: int)
    requires 0 <= i < |PangoEntity(c)| && PangoEntity(c)[i] == '&'
    ensures PangoEntityAt(PangoEntity(c) + rest, i)
  {
    var e := PangoEntity(c);
    assert i == 0;
    assert (e + rest)[0..|e|] == e;
  }

  lemma {:induction false} PangoEscapedAmpersands(s: string)
    ensures forall i :: 0 <= i < |PangoEscaped(s)| && PangoEscaped(s)[i] == '&' ==> PangoEntityAt(PangoEscaped(s), i)
    decreases |s|
  {
    if s != [] {
      var e, rest := PangoEntity(s[0]), PangoEscaped(s[1..]);
      PangoEscapedAmpersands(s[1..]);
      var r := e + rest;
      assert PangoEscaped(s) == r;
      forall i | 0 <= i < |r| && r[i] == '&'
        ensures PangoEntityAt(r, i)
      {
        if i < |e| {
          EntityStart(s[0], rest, i);
        } else {
          assert rest[i - |e|] == '&';
          EntityShift(e, rest, i - |e|);
        }
      }
    }
  }

  /** Every `&` of the output starts `&amp;`, `&lt;` or `&gt;`. */
  lemma EscapePangoAmpersands(s: string)
    ensures var r := EscapePango(s);
      forall i :: 0 <= i < |r| && r[i] == '&' ==> PangoEntityAt(r, i)
  {
    EscapePangoPerChar(s);
    PangoEscapedAmpersands(s);
  }

  /** Decoding the three entities, left to right. */
  function UnescapePango(s: string): string
  {
    if s == [] then []
    else if s[0] != '&' then [s[0]] + UnescapePango(s[1..])
    else if "&amp;" <= s then "&" + UnescapePango(s[5..])
    else if "&lt;" <= s then "<" + UnescapePango(s[4..])
    else if "&gt;" <= s then ">" + UnescapePango(s[4..])
    else [s[0]] + UnescapePango(s[1..])
  }

  lemma UnescapeEntity(c: char, rest: string)
    ensures UnescapePango(PangoEntity(c) + rest) == [c] + UnescapePango(rest)
  {
    var r := PangoEntity(c) + rest;
    if c == '&' {
      assert "&amp;" <= r && r[5..] == rest;
    } else if c == '<' {
      assert r[1] == 'l';
      assert "&lt;" <= r && r[4..] == rest;
    } else if c == '>' {
      assert r[1] == 'g';
      assert "&gt;" <= r && r[4..] == rest;
    } else {
      assert r[0] == c && r[1..] == rest;
    }
  }

  lemma {:induction false} UnescapeEscaped(s: string)
    ensures UnescapePango(PangoEscaped(s)) == s
    decreases |s|
  {
    if s != [] {
      UnescapeEscaped(s[1..]);
      UnescapeEntity(s[0], PangoEscaped(s[1..]));
      assert s == [s[0]] + s[1..];
    }
  }

  /** Escaping loses nothing: decoding gives the input back. */
  lemma EscapePangoRoundTrip(s: string)
    ensures UnescapePango(EscapePango(s)) == s
  {
    EscapePangoPerChar(s);
    UnescapeEscaped(s);
  }

  /* ---------- remaining tags ---------- */

  /** `.replace(/<[^>]*>/g, '')`: a `<` starts a tag when some `>` follows
      it, and the tag ends at the first such `>`; a `<` with no `>` after it
      is kept. */
  function StripTags(s: string): string
    decreases |s|
  {
    if s == [] then []
    else if s[0] == '<' && RunWithout(s[1..], '>') < |s| - 1 then
      StripTags(s[RunWithout(s[1..], '>') + 2..])
    else [s[0]] + StripTags(s[1..])
  }

  /** No `<` is followed, anywhere later, by a `>`: nothing the pattern could
      still match. */
  predicate NoTag(r: string)
  {
    forall i, j :: 0 <= i < j < |r| && r[i] == '<' ==> r[j] != '>'
  }

  lemma {:induction false} StripTagsNoGt(s: string)
    requires '>' !in s
    ensures StripTags(s) == s
    decreases |s|
  {
    if s != [] {
      StripTagsNoGt(s[1..]);
      assert s == [s[0]] + s[1..];
    }
  }

  /** After the strip no tag is left. */
  lemma {:induction false} StripTagsLeavesNoTag(s: string)
    ensures NoTag(StripTags(s))
    decreases |s|
  {
    if s != [] {
      var k := RunWithout(s[1..], '>');
      if s[0] == '<' && k < |s| - 1 {
        StripTagsLeavesNoTag(s[k + 2..]);
      } else if s[0] == '<' {
        RunWithoutFree(s[1..], '>');
        assert s[1..][..k] == s[1..];
        StripTagsNoGt(s[1..]);
        assert StripTags(s) == s;
      } else {
        StripTagsLeavesNoTag(s[1..]);
        var r, rest := StripTags(s), StripTags(s[1..]);
        forall i, j | 0 <= i < j < |r| && r[i] == '<'
          ensures r[j] != '>'
        {
          assert r[i] == rest[i - 1] && r[j] == rest[j - 1];
        }
      }
    }
  }

  /** Text without a tag is left alone, so stripping twice is stripping once. */
  lemma {:induction false} StripTagsIdentity(s: string)
    requires NoTag(s)
    ensures StripTags(s) == s
    decreases |s|
  {
    if s != [] {
      if s[0] == '<' {
        assert '>' !in s[1..] by {
          forall j | 0 <= j < |s[1..]| ensures s[1..][j] != '>' {
            assert s[1..][j] == s[j + 1];
          }
        }
        StripTagsNoGt(s[1..]);
      }
      assert NoTag(s[1..]) by {
        forall i, j | 0 <= i < j < |s[1..]| && s[1..][i] == '<' ensures s[1..][j] != '>' {
          assert s[1..][i] == s[i + 1] && s[1..][j] == s[j + 1];
        }
      }
      StripTagsIdentity(s[1..]);
      assert s == [s[0]] + s[1..];
    }
  }

  lemma StripTagsIdempotent(s: string)
    ensures StripTags(StripTags(s)) == StripTags(s)
  {
    StripTagsLeavesNoTag(s);
    StripTagsIdentity(StripTags(s));
  }

  /** Text before the first `<` is kept as it is. */
  lemma {:induction false} StripTagsPlainPrefix(a: string, s: string)
    requires '<' !in a
    ensures StripTags(a + s) == a + StripTags(s)
    decreases |a|
  {
    if a == [] {
      assert a + s == s;
    } else {
      var t, rest := a + s, a[1..];
      assert t[0] == a[0] && t[1..] == rest + s;
      assert '<' !in rest by {
        assert forall x :: x in rest ==> x in a;
      }
      StripTagsPlainPrefix(rest, s);
      assert a == [a[0]] + rest;
    }
  }

  /** A tag, from a `<` to the first `>` after it, is removed whole. */
  lemma StripTagsTag(t: string, s: string)
    requires '>' !in t
    ensures StripTags("<" + t + ">" + s) == StripTags(s)
  {
    var u := "<" + t + ">" + s;
    assert u[1..] == t + (">" + s);
    RunWithoutPrefix(t, ">" + s, '>');
    assert u[|t| + 2..] == s;
  }

  /** A `<` with no `>` anywhere after it is kept. */
  lemma StripTagsUnclosed(s: string)
    requires '>' !in s
    ensures StripTags("<" + s) == "<" + StripTags(s)
  {
    var u := "<" + s;
    assert u[1..] == s;
    assert RunWithout(s, '>') == |s|;
  }

  /* ---------- runs of newlines ---------- */

  /** `.replace(/\n{3,}/g, '\n\n')`: a run of three or more newlines, taken
      whole, becomes two. */
  function CollapseNewlines(s: string): string
    decreases |s|
  {
    if s == [] then []
    else if LeadingRun(s, '\n') >= 3 then "\n\n" + CollapseNewlines(s[LeadingRun(s, '\n')..])
    else [s[0]] + CollapseNewlines(s[1..])
  }

  /** Text without a newline is kept as it is. */
  lemma {:induction false} CollapsePlainPrefix(a: string, s: string)
    requires '\n' !in a
    ensures CollapseNewlines(a + s) == a + CollapseNewlines(s)
    decreases |a|
  {
    if a == [] {
      assert a + s == s;
    } else {
      var t, rest := a + s, a[1..];
      assert t[0] == a[0] && t[1..] == rest + s;
      assert '\n' !in rest by {
        assert forall x :: x in rest ==> x in a;
      }
      CollapsePlainPrefix(rest, s);
      assert a == [a[0]] + rest;
    }
  }

  /** A run of three or more newlines, followed by no newline, becomes two. */
  lemma CollapseLongRun(run: string, s: string)
    requires |run| >= 3 && forall i :: 0 <= i < |run| ==> run[i] == '\n'
    requires s == [] || s[0] != '\n'
    ensures CollapseNewlines(run + s) == "\n\n" + CollapseNewlines(s)
  {
    var t := run + s;
    LeadingRunOfRun(run, s, '\n');
    assert t[|run|..] == s;
  }

  /** Outside a run of three or more newlines, the first character is kept. */
  lemma CollapseStep(t: string)
    requires t != [] && LeadingRun(t, '\n') < 3
    ensures CollapseNewlines(t) == [t[0]] + CollapseNewlines(t[1..])
  {
  }

  /** A run of one or two newlines, followed by no newline, is kept. */
  lemma {:induction false} CollapseShortRun(run: string, s: string)
    requires |run| < 3 && forall i :: 0 <= i < |run| ==> run[i] == '\n'
    requires s == [] || s[0] != '\n'
    ensures CollapseNewlines(run + s) == run + CollapseNewlines(s)
    decreases |run|
  {
    var t := run + s;
    if run == [] {
      assert t == s;
    } else {
      var rest := run[1..];
      LeadingRunOfRun(run, s, '\n');
      CollapseStep(t);
      assert t[1..] == rest + s;
      CollapseShortRun(rest, s);
      assert run == [t[0]] + rest;
    }
  }

  /** A whole run of newlines becomes two when it holds three or more, and is
      kept when it holds one or two. */
  lemma CollapseRun(run: string, s: string)
    requires forall i :: 0 <= i < |run| ==> run[i] == '\n'
    requires s == [] || s[0] != '\n'
    ensures CollapseNewlines(run + s) == (if |run| >= 3 then "\n\n" else run) + CollapseNewlines(s)
  {
    if |run| >= 3 {
      CollapseLongRun(run, s);
    } else {
      CollapseShortRun(run, s);
    }
  }

  /** No run of three or more newlines starts anywhere in `r`. */
  predicate ShortRuns(r: string)
  {
    forall i :: 0 <= i < |r| ==> LeadingRun(r[i..], '\n') <= 2
  }

  lemma {:induction false} RunIsMaximal(s: string)
    ensures LeadingRun(s[LeadingRun(s, '\n')..], '\n') == 0
    decreases |s|
  {
    if s != [] && s[0] == '\n' {
      RunIsMaximal(s[1..]);
      assert s[LeadingRun(s, '\n')..] == s[1..][LeadingRun(s[1..], '\n')..];
    }
  }

  lemma RunOfTwo(x: string)
    ensures LeadingRun("\n\n" + x, '\n') == 2 + LeadingRun(x, '\n')
    ensures LeadingRun(("\n\n" + x)[1..], '\n') == 1 + LeadingRun(x, '\n')
  {
    assert ("\n\n" + x)[1..] == "\n" + x;
    assert ("\n" + x)[1..] == x;
  }

  /** How many newlines the collapsed text starts with. */
  lemma {:induction false} CollapseLeadingRun(s: string)
    ensures LeadingRun(CollapseNewlines(s), '\n') == if LeadingRun(s, '\n') >= 3 then 2 else LeadingRun(s, '\n')
    decreases |s|
  {
    if s != [] {
      var k := LeadingRun(s, '\n');
      if k >= 3 {
        RunIsMaximal(s);
        CollapseLeadingRun(s[k..]);
        RunOfTwo(CollapseNewlines(s[k..]));
      } else {
        CollapseLeadingRun(s[1..]);
        var r := CollapseNewlines(s);
        assert r[1..] == CollapseNewlines(s[1..]);
      }
    }
  }

  /** After collapsing, no run of three or more newlines is left. */
  lemma {:induction false} CollapseShortRuns(s: string)
    ensures ShortRuns(CollapseNewlines(s))
    decreases |s|
  {
    if s != [] {
      var k := LeadingRun(s, '\n');
      var r := CollapseNewlines(s);
      if k >= 3 {
        var x := CollapseNewlines(s[k..]);
        CollapseShortRuns(s[k..]);
        RunIsMaximal(s);
        CollapseLeadingRun(s[k..]);
        RunOfTwo(x);
        forall i | 0 <= i < |r| ensures LeadingRun(r[i..], '\n') <= 2 {
          if i >= 2 {
            assert r[i..] == x[i - 2..];
          }
        }
      } else {
        var x := CollapseNewlines(s[1..]);
        CollapseShortRuns(s[1..]);
        CollapseLeadingRun(s);
        forall i | 0 <= i < |r| ensures LeadingRun(r[i..], '\n') <= 2 {
          if i >= 1 {
            assert r[i..] == x[i - 1..];
          }
        }
      }
    }
  }

  lemma {:induction false} RunOfPrefix(t: string, m: nat)
    requires m <= |t|
    ensures LeadingRun(t[..m], '\n') <= LeadingRun(t, '\n')
    decreases m
  {
    if m > 0 && t[0] == '\n' {
      RunOfPrefix(t[1..], m - 1);
      assert t[..m][1..] == t[1..][..m - 1];
    }
  }

  lemma ShortRunsSlice(s: string, a: nat, b: nat)
    requires a <= b <= |s| && ShortRuns(s)
    ensures ShortRuns(s[a..b])
  {
    forall i | 0 <= i < b - a ensures LeadingRun(s[a..b][i..], '\n') <= 2 {
      assert s[a..b][i..] == s[a + i..][..b - a - i];
      RunOfPrefix(s[a + i..], b - a - i);
    }
  }

  lemma NoTagSlice(s: string, a: nat, b: nat)
    requires a <= b <= |s| && NoTag(s)
    ensures NoTag(s[a..b])
  {
    forall i, j | 0 <= i < j < b - a && s[a..b][i] == '<' ensures s[a..b][j] != '>' {
      assert s[a..b][i] == s[a + i] && s[a..b][j] == s[a + j];
    }
  }

  /** A character put in front keeps the shape, unless it is a `<` with a
      `>` after it. */
  lemma NoTagCons(c: char, x: string)
    requires NoTag(x) && (c == '<' ==> '>' !in x)
    ensures NoTag([c] + x)
  {
    var r := [c] + x;
    forall i, j | 0 <= i < j < |r| && r[i] == '<' ensures r[j] != '>' {
      assert r[j] == x[j - 1];
      if i > 0 {
        assert r[i] == x[i - 1];
      }
    }
  }

  /** Collapsing newlines neither adds a `<` nor a `>`, nor reorders them. */
  lemma {:induction false} CollapseKeepsNoTag(s: string)
    requires NoTag(s)
    ensures NoTag(CollapseNewlines(s)) && ('>' !in s ==> '>' !in CollapseNewlines(s))
    decreases |s|
  {
    if s != [] {
      var k := LeadingRun(s, '\n');
      var r := CollapseNewlines(s);
      if k >= 3 {
        var rest := s[k..];
        NoTagSlice(s, k, |s|);
        assert s[k..|s|] == rest;
        assert '>' !in s ==> '>' !in rest by {
          assert forall ch :: ch in rest ==> ch in s;
        }
        CollapseKeepsNoTag(rest);
        var x := CollapseNewlines(rest);
        NoTagCons('\n', x);
        NoTagCons('\n', ['\n'] + x);
        assert r == ['\n'] + (['\n'] + x);
      } else {
        var rest := s[1..];
        NoTagSlice(s, 1, |s|);
        assert s[1..|s|] == rest;
        assert (s[0] == '<' || '>' !in s) ==> '>' !in rest by {
          if s[0] == '<' {
            forall j | 0 <= j < |rest| ensures rest[j] != '>' {
              assert rest[j] == s[j + 1];
            }
          }
          assert forall ch :: ch in rest ==> ch in s;
        }
        CollapseKeepsNoTag(rest);
        var x := CollapseNewlines(rest);
        NoTagCons(s[0], x);
        assert r == [s[0]] + x;
      }
    }
  }

  /* ---------- the tail of _htmlToPango ---------- */

  /** The last three steps of `_htmlToPango`. */
  function HtmlTail(html: string): string
  {
    Trim(CollapseNewlines(StripTags(html)))
  }

  /** Trimming cuts a slice, so it keeps both shapes. */
  lemma TrimKeepsShape(s: string)
    requires NoTag(s) && ShortRuns(s)
    ensures NoTag(Trim(s)) && ShortRuns(Trim(s))
  {
    var t := TrimStart(s);
    var a := LeadingSpace(s);
    assert t == s[a..|s|];
    ShortRunsSlice(s, a, |s|);
    NoTagSlice(s, a, |s|);
    var r := TrimEnd(t);
    assert r == t[0..|r|];
    ShortRunsSlice(t, 0, |r|);
    NoTagSlice(t, 0, |r|);
  }

  /** The markup handed to Pango has no tag left, no run of three or more
      newlines, and no whitespace at either end. */
  lemma HtmlTailShape(html: string)
    ensures var r := HtmlTail(html);
      NoTag(r) && ShortRuns(r) && (r == [] || (!IsJsSpace(r[0]) && !IsJsSpace(r[|r| - 1])))
  {
    var stripped := StripTags(html);
    var collapsed := CollapseNewlines(stripped);
    assert HtmlTail(html) == Trim(collapsed);
    StripTagsLeavesNoTag(html);
    CollapseKeepsNoTag(stripped);
    CollapseShortRuns(stripped);
    TrimKeepsShape(collapsed);
    TrimEnds(collapsed);
  }

  /* ---------- render ---------- */

  /** What `render` leaves in the label. `converted` is the HTML produced by
      `marked.parse(text.trim())` and the element rewrites of `_htmlToPango`,
      or None when the conversion throws; `accepts` says whether Pango
      accepts a markup string. */
  function RenderLabel(text: string, converted: Option<string>, accepts: string -> bool): Label
  {
    if text == [] then Plain([])
    else
      match converted
      case None => Plain(EscapePango(text))
      case Some(html) =>
        var markup := HtmlTail(html);
        if accepts(markup) then Markup(markup) else Plain(EscapePango(text))
  }

  /** Empty input gives an empty label; a failure at either stage falls back
      to the escaped original, which holds no raw `<` or `>` and decodes to
      the original; accepted markup is set, and it has the shape of
      `HtmlTail`. */
  lemma RenderOutcome(text: string, converted: Option<string>, accepts: string -> bool)
    ensures var r := RenderLabel(text, converted, accepts);
      (text == [] ==> r == Plain([])) &&
      (text != [] && (converted.None? || !accepts(HtmlTail(converted.value))) ==>
         r == Plain(EscapePango(text)) && '<' !in r.text && '>' !in r.text && UnescapePango(r.text) == text) &&
      (text != [] && converted.Some? && accepts(HtmlTail(converted.value)) ==>
         r == Markup(HtmlTail(converted.value))) &&
      (r.Markup? ==>
         converted.Some? && NoTag(r.markup) && ShortRuns(r.markup) &&
         (r.markup == [] || (!IsJsSpace(r.markup[0]) && !IsJsSpace(r.markup[|r.markup| - 1]))))
  {
    EscapePangoNoBrackets(text);
    EscapePangoRoundTrip(text);
    if converted.Some? {
      HtmlTailShape(converted.value);
    }
  }
}
