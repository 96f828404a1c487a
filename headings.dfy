/** The heading stage: the h3, h2 and h1 rules applied in that order. */
module HeadingStage {
  import opened Text
  import opened Rules
  import opened Markdown

  function Hashes(n: nat): string
  {
    seq(n, _ => '#')
  }

  /** What a heading line of level n with text t becomes. */
  function HeadingHtml(n: nat, t: string): string
  {
    "<" + HeadlineTag(n) + ">" + t + "</" + HeadlineTag(n) + ">" + (if n == 1 then "<hr>" else "")
  }

  lemma HeadingsSteps(s: string)
    ensures Headings(s) == Apply(Headline(1, "<hr>"), Apply(Headline(2, ""), Apply(Headline(3, ""), s)))
  {
    assert HeadlineRules[1..][1..][1..] == [];
  }

  /** The shape of a heading line: n hashes, a non-empty run of whitespace
      (which may hold line terminators, since `\s` accepts them), then one
      line of text that starts with neither whitespace nor, right after a
      line terminator, a hash. */
  predicate HeadingShape(n: nat, ws: string, t: string)
  {
    ws != [] && (forall k :: 0 <= k < |ws| ==> IsSpace(ws[k]))
    && t != [] && OneLine(t, 0, |t|) && !IsSpace(t[0])
    && (IsLineTerminator(ws[|ws| - 1]) ==> t[0] != '#')
  }

  /** The same shape read off the whole line s, the run being s[n..n + w]. */
  predicate HeadingLineAt(s: string, n: nat, w: nat)
  {
    1 <= w && n + w < |s|
    && (forall k :: 0 <= k < n ==> s[k] == '#')
    && (forall k :: n <= k < n + w ==> IsSpace(s[k]))
    && OneLine(s, n + w, |s|) && !IsSpace(s[n + w])
    && (IsLineTerminator(s[n + w - 1]) ==> s[n + w] != '#')
  }

  lemma HeadingShapeAt(n: nat, ws: string, t: string)
    requires HeadingShape(n, ws, t)
    ensures HeadingLineAt(Hashes(n) + ws + t, n, |ws|)
    ensures (Hashes(n) + ws + t)[n + |ws|..] == t
  {
    var s := Hashes(n) + ws + t;
    forall k | 0 <= k < n ensures s[k] == '#' { assert s[k] == Hashes(n)[k]; }
    forall k | n <= k < n + |ws| ensures IsSpace(s[k]) { assert s[k] == ws[k - n]; }
    forall k | n + |ws| <= k < |s| ensures !IsLineTerminator(s[k]) { assert s[k] == t[k - n - |ws|]; }
    assert s[n + |ws| - 1] == ws[|ws| - 1];
    assert s[n + |ws|..] == t;
  }

  /** On such a line, a rule of another level matches nowhere. */
  lemma OtherLevelIdle(n: nat, ws: string, t: string, m: nat, suffix: string)
    requires HeadingShape(n, ws, t) && 1 <= m && m != n
    ensures Apply(Headline(m, suffix), Hashes(n) + ws + t) == Hashes(n) + ws + t
  {
    HeadingShapeAt(n, ws, t);
    OtherLevelIdleAt(Hashes(n) + ws + t, n, |ws|, m, suffix);
  }

  lemma OtherLevelIdleAt(s: string, n: nat, w: nat, m: nat, suffix: string)
    requires HeadingLineAt(s, n, w) && 1 <= m && m != n
    ensures Apply(Headline(m, suffix), s) == s
  {
    forall p: nat | p < |s| ensures MatchAt(Headline(m, suffix), s, p).None? {
      if p == 0 {
        if m > n {
          assert IsSpace(s[n]);
        } else {
          assert s[m] == '#';
        }
      } else if p < n + w {
        assert s[p] == '#' || IsSpace(s[p]);
        assert !HeadlineOpens(s, p, m) by {
          if p >= n { assert IsSpace(s[p]); }
          else { assert !IsLineTerminator(s[p - 1]); }
        }
      } else if p == n + w {
        assert !HeadlineOpens(s, p, m) by {
          if IsLineTerminator(s[p - 1]) { assert s[p] != '#'; }
        }
      } else {
        assert !IsLineTerminator(s[p - 1]);
      }
    }
    ApplyUnmatched(Headline(m, suffix), s);
  }

  /** On such a line, the rule of its own level matches the whole line. */
  lemma OwnLevelMatches(n: nat, ws: string, t: string, suffix: string)
    requires HeadingShape(n, ws, t)
    ensures Apply(Headline(n, suffix), Hashes(n) + ws + t)
            == "<" + HeadlineTag(n) + ">" + t + "</" + HeadlineTag(n) + ">" + suffix
  {
    HeadingShapeAt(n, ws, t);
    OwnLevelMatchesAt(Hashes(n) + ws + t, n, |ws|, suffix);
  }

  lemma OwnLevelMatchesAt(s: string, n: nat, w: nat, suffix: string)
    requires HeadingLineAt(s, n, w)
    ensures Apply(Headline(n, suffix), s)
            == "<" + HeadlineTag(n) + ">" + s[n + w..] + "</" + HeadlineTag(n) + ">" + suffix
  {
    assert HeadlineOpens(s, 0, n);
    assert HeadlineText(s, 0, n, n + w);
    var r := HeadlineAt(s, 0, n);
    assert r == Some(n + w) by {
      assert !IsSpace(s[n + w]);
    }
    LineEndUnique(s, n + w, |s|);
    assert s[n + w..|s|] == s[n + w..];
    ApplyWhole(Headline(n, suffix), s, "<" + HeadlineTag(n) + ">" + s[n + w..] + "</" + HeadlineTag(n) + ">" + suffix);
  }

  /** A produced heading is one line. */
  lemma HtmlOneLine(n: nat, t: string)
    requires OneLine(t, 0, |t|)
    ensures OneLine(HeadingHtml(n, t), 0, |HeadingHtml(n, t)|)
  {
    var tag := HeadlineTag(n);
    assert OneLine(tag, 0, |tag|);
    var hr := if n == 1 then "<hr>" else "";
    assert OneLine(hr, 0, |hr|);
    OneLineAppend("<", tag);
    OneLineAppend("<" + tag, ">");
    OneLineAppend("<" + tag + ">", t);
    OneLineAppend("<" + tag + ">" + t, "</");
    OneLineAppend("<" + tag + ">" + t + "</", tag);
    OneLineAppend("<" + tag + ">" + t + "</" + tag, ">");
    OneLineAppend("<" + tag + ">" + t + "</" + tag + ">", hr);
  }

  /** The produced heading is left alone by every later headline rule. */
  lemma HtmlIdle(n: nat, t: string, m: nat, suffix: string)
    requires OneLine(t, 0, |t|) && 1 <= m
    ensures Apply(Headline(m, suffix), HeadingHtml(n, t)) == HeadingHtml(n, t)
  {
    var o := HeadingHtml(n, t);
    HtmlOneLine(n, t);
    assert o[0] == '<';
    forall p: nat | p < |o| ensures MatchAt(Headline(m, suffix), o, p).None? {
      if p > 0 {
        assert !IsLineTerminator(o[p - 1]);
      }
    }
    ApplyUnmatched(Headline(m, suffix), o);
  }

  /** A line of exactly n (one to three) hashes, a run of whitespace and
      text becomes an h`n` heading around the text, followed by `<hr>` for
      level 1, and no heading of another level. */
  lemma HeadingLine(n: nat, ws: string, t: string)
    requires 1 <= n <= 3 && HeadingShape(n, ws, t)
    ensures Headings(Hashes(n) + ws + t) == HeadingHtml(n, t)
  {
    var s := Hashes(n) + ws + t;
    HeadingsSteps(s);
    if n == 3 {
      OwnLevelMatches(3, ws, t, "");
      HtmlIdle(3, t, 2, "");
      HtmlIdle(3, t, 1, "<hr>");
    } else if n == 2 {
      OtherLevelIdle(2, ws, t, 3, "");
      OwnLevelMatches(2, ws, t, "");
      HtmlIdle(2, t, 1, "<hr>");
    } else {
      OtherLevelIdle(1, ws, t, 3, "");
      OtherLevelIdle(1, ws, t, 2, "");
      OwnLevelMatches(1, ws, t, "<hr>");
    }
  }

  /** No headline rule starts a match at a run of four hashes. */
  lemma FourHashesNoHeadline(s: string, p: nat, n: nat, suffix: string)
    requires 1 <= n <= 3 && p + 4 <= |s| && s[p..p + 4] == "####"
    ensures MatchAt(Headline(n, suffix), s, p).None?
  {
    assert s[p + n] == s[p..p + 4][n];
  }

  /** No headline rule matches anywhere in a single line opening with four hashes. */
  lemma FourHashRuleIdle(t: string, n: nat, suffix: string)
    requires OneLine(t, 0, |t|) && 1 <= n <= 3
    ensures Apply(Headline(n, suffix), "####" + t) == "####" + t
  {
    var s := "####" + t;
    forall p: nat | p < |s| ensures MatchAt(Headline(n, suffix), s, p).None? {
      if p == 0 {
        FourHashesNoHeadline(s, 0, n, suffix);
      } else {
        assert !IsLineTerminator(s[p - 1]) by {
          if p - 1 >= 4 { assert s[p - 1] == t[p - 5]; }
        }
      }
    }
    ApplyUnmatched(Headline(n, suffix), s);
  }

  /** A single line opening with four or more hashes passes the stage unchanged. */
  lemma FourHashLineUntouched(t: string)
    requires OneLine(t, 0, |t|)
    ensures Headings("####" + t) == "####" + t
  {
    FourHashRuleIdle(t, 3, "");
    FourHashRuleIdle(t, 2, "");
    FourHashRuleIdle(t, 1, "<hr>");
    HeadingsSteps("####" + t);
  }

  /** A headline rule matches nowhere in text with no line opening with '#'. */
  lemma NoHashRuleIdle(s: string, n: nat, suffix: string)
    requires 1 <= n && forall p: nat :: p < |s| && AtLineStart(s, p) ==> s[p] != '#'
    ensures Apply(Headline(n, suffix), s) == s
  {
    forall p: nat | p < |s| ensures MatchAt(Headline(n, suffix), s, p).None? {
      assert !HeadlineOpens(s, p, n);
    }
    ApplyUnmatched(Headline(n, suffix), s);
  }

  /** Text with no line opening with '#' passes the heading stage unchanged. */
  lemma NoHashLineUntouched(s: string)
    requires forall p: nat :: p < |s| && AtLineStart(s, p) ==> s[p] != '#'
    ensures Headings(s) == s
  {
    NoHashRuleIdle(s, 3, "");
    NoHashRuleIdle(s, 2, "");
    NoHashRuleIdle(s, 1, "<hr>");
    HeadingsSteps(s);
  }
}
