/** The emphasis stage: `**`, `*`, `__`, `_` and `~~` rules, in table order. */
module EmphasisStage {
  import opened Text
  import opened Rules
  import opened Markdown

  /** Marker m occurs in s at p. */
  predicate OccursAt(s: string, p: nat, m: string)
  {
    p + |m| <= |s| && s[p..p + |m|] == m
  }

  /** A marker whose first character is absent from s occurs nowhere in it. */
  lemma AbsentMarker(s: string, m: string)
    requires m != [] && m[0] !in s
    ensures forall p: nat :: !OccursAt(s, p, m)
  {
    forall p: nat ensures !OccursAt(s, p, m) {
      if p + |m| <= |s| {
        assert s[p..p + |m|][0] == s[p];
      }
    }
  }

  /** A delimited rule whose marker does not occur leaves the text alone. */
  lemma DelimitedIdle(m: string, tag: string, s: string)
    requires forall p: nat :: !OccursAt(s, p, m)
    ensures Apply(Delimited(m, tag), s) == s
  {
    forall p: nat | p < |s| ensures MatchAt(Delimited(m, tag), s, p).None? {
      assert !OccursAt(s, p, m);
    }
    ApplyUnmatched(Delimited(m, tag), s);
  }

  /** A bounded rule whose marker does not occur leaves the text alone. */
  lemma BoundedIdle(m: string, tag: string, s: string)
    requires forall p: nat :: !OccursAt(s, p, m)
    ensures Apply(Bounded(m, tag), s) == s
  {
    forall p: nat | p < |s| ensures MatchAt(Bounded(m, tag), s, p).None? {
      assert !OccursAt(s, p + 1, m);
    }
    ApplyUnmatched(Bounded(m, tag), s);
  }

  /** The underscore forms need whitespace on both sides: text without any
      whitespace (such as `snake__case__name`) is left alone by them. */
  lemma BoundedNeedsSpace(m: string, tag: string, s: string)
    requires forall k :: 0 <= k < |s| ==> !IsSpace(s[k])
    ensures Apply(Bounded(m, tag), s) == s
  {
    forall p: nat | p < |s| ensures MatchAt(Bounded(m, tag), s, p).None? {
      assert !IsSpace(s[p]);
    }
    ApplyUnmatched(Bounded(m, tag), s);
  }

  /** Content of a delimited or bounded span: one line, not ending in a backslash. */
  predicate SpanContent(c: string)
  {
    c != [] && NoNewline(c, 0, |c|) && c[|c| - 1] != '\\'
  }

  /** s is `M c M`. */
  predicate FramedBy(s: string, m: string, c: string)
  {
    |s| == |m| + |c| + |m| && s[..|m|] == m && s[|m|..|m| + |c|] == c && s[|m| + |c|..] == m
  }

  lemma FramedConcat(m: string, c: string)
    ensures FramedBy(m + c + m, m, c)
  {
    var s := m + c + m;
    assert s[..|m|] == m && s[|m|..|m| + |c|] == c && s[|m| + |c|..] == m;
  }

  /** In `M c M` the second marker may close the span opened by the first. */
  lemma FramedCloses(s: string, m: string, c: string)
    requires FramedBy(s, m, c) && m != [] && SpanContent(c)
    ensures DelimitedOpens(s, 0, m) && DelimitedCloses(s, 0, m, |m| + |c|)
  {
    var q := |m| + |c|;
    forall k | |m| <= k < q - 1 ensures s[k] != '\n' {
      assert s[k] == s[|m|..q][k - |m|];
    }
    assert s[q - 1] == s[|m|..q][|c| - 1];
    assert s[q..q + |m|] == s[q..];
  }

  /** ... and no earlier position closes it, as c holds no marker character. */
  lemma FramedFirstClose(s: string, m: string, c: string)
    requires FramedBy(s, m, c) && m != [] && m[0] !in c
    ensures forall q: nat :: q < |m| + |c| ==> !DelimitedCloses(s, 0, m, q)
  {
    forall q: nat | q < |m| + |c| ensures !DelimitedCloses(s, 0, m, q) {
      if |m| < q && q + |m| <= |s| {
        assert s[q] == s[|m|..|m| + |c|][q - |m|];
        assert s[q..q + |m|][0] == s[q];
      }
    }
  }

  /** DelimitedSpan on the text itself. */
  lemma FramedSpan(s: string, m: string, tag: string, c: string)
    requires FramedBy(s, m, c) && m != [] && SpanContent(c) && m[0] !in c
    ensures Apply(Delimited(m, tag), s) == "<" + tag + ">" + c + "</" + tag + ">"
  {
    FramedCloses(s, m, c);
    FramedFirstClose(s, m, c);
    assert DelimitedAt(s, 0, m) == Some(|m| + |c|);
    ApplyWhole(Delimited(m, tag), s, "<" + tag + ">" + c + "</" + tag + ">");
  }

  /** `M c M` is one delimited span, its content wrapped in the tag. */
  lemma DelimitedSpan(m: string, tag: string, c: string)
    requires m != [] && SpanContent(c) && m[0] !in c
    ensures Apply(Delimited(m, tag), m + c + m) == "<" + tag + ">" + c + "</" + tag + ">"
  {
    FramedConcat(m, c);
    FramedSpan(m + c + m, m, tag, c);
  }

  /** The template's tag, spelled out. */
  lemma TagText(tag: string, x: string, open: string, close: string)
    requires open == "<" + tag + ">" && close == "</" + tag + ">"
    ensures "<" + tag + ">" + x + "</" + tag + ">" == open + x + close
  {
  }

  /** Content of an underscore span: also free of underscores. */
  predicate UnderscoreContent(c: string)
  {
    SpanContent(c) && '_' !in c
  }

  /** In `w M c M w'` the bounded matcher at 0 ends its content right
      before the second marker. */
  lemma BoundedSpanAt(m: string, w: char, c: string, w': char)
    requires m != [] && m[0] == '_' && IsSpace(w) && IsSpace(w') && UnderscoreContent(c)
    ensures BoundedAt([w] + m + c + m + [w'], 0, m) == Some(1 + |m| + |c|)
  {
    BoundedSpanCloses(m, w, c, w');
    BoundedSpanFirst(m, w, c, w');
  }

  lemma BoundedSpanCloses(m: string, w: char, c: string, w': char)
    requires m != [] && m[0] == '_' && IsSpace(w) && IsSpace(w') && UnderscoreContent(c)
    ensures var s := [w] + m + c + m + [w'];
            BoundedOpens(s, 0, m) && BoundedCloses(s, 0, m, 1 + |m| + |c|)
  {
    var s := [w] + m + c + m + [w'];
    var cs := 1 + |m|;
    var q := cs + |c|;
    assert s[0] == w && s[1..cs] == m && s[q..q + |m|] == m && s[q + |m|] == w';
    assert forall k :: cs <= k < q ==> s[k] == c[k - cs];
    assert s[q - 1] == c[|c| - 1];
  }

  lemma BoundedSpanFirst(m: string, w: char, c: string, w': char)
    requires m != [] && m[0] == '_' && UnderscoreContent(c)
    ensures var s := [w] + m + c + m + [w'];
            forall q: nat :: q < 1 + |m| + |c| ==> !BoundedCloses(s, 0, m, q)
  {
    var s := [w] + m + c + m + [w'];
    var cs := 1 + |m|;
    forall q: nat | q < cs + |c| ensures !BoundedCloses(s, 0, m, q) {
      if cs < q && q + |m| <= |s| {
        assert s[q] == c[q - cs];
        assert s[q..q + |m|][0] == s[q];
      }
    }
  }

  lemma BoundedMatch(m: string, tag: string, w: char, c: string, w': char)
    requires m != [] && m[0] == '_' && IsSpace(w) && IsSpace(w') && UnderscoreContent(c)
    ensures var s := [w] + m + c + m + [w'];
            MatchAt(Bounded(m, tag), s, 0) == Some(Match(|s|, "<" + tag + ">" + [w] + c + [w'] + "</" + tag + ">"))
  {
    var s := [w] + m + c + m + [w'];
    var cs := 1 + |m|;
    var q := cs + |c|;
    BoundedSpanAt(m, w, c, w');
    assert s[0] == w && s[cs..q] == c && s[q + |m|] == w';
  }

  /** `w M c M w'` (w, w' whitespace) is one bounded span; the whitespace
      moves inside the tag. */
  lemma BoundedSpan(m: string, tag: string, w: char, c: string, w': char)
    requires m != [] && m[0] == '_' && IsSpace(w) && IsSpace(w') && UnderscoreContent(c)
    ensures Apply(Bounded(m, tag), [w] + m + c + m + [w'])
            == "<" + tag + ">" + ([w] + c + [w']) + "</" + tag + ">"
  {
    assert "<" + tag + ">" + [w] + c + [w'] + "</" + tag + ">" == "<" + tag + ">" + ([w] + c + [w']) + "</" + tag + ">";
    BoundedMatch(m, tag, w, c, w');
    ApplyWhole(Bounded(m, tag), [w] + m + c + m + [w'], "<" + tag + ">" + [w] + c + [w'] + "</" + tag + ">");
  }

  /** Single underscores around unmarked content never form `__`. */
  lemma NoDoubleUnderscore(w: char, c: string, w': char)
    requires IsSpace(w) && IsSpace(w') && c != [] && Unmarked(c)
    ensures forall p: nat :: !OccursAt([w] + "_" + c + "_" + [w'], p, "__")
  {
    NoAdjacentUnderscores(w, c, w');
    NoPair([w] + "_" + c + "_" + [w'], '_');
  }

  /** No two neighbouring underscores in ` _c_ `. */
  lemma NoAdjacentUnderscores(w: char, c: string, w': char)
    requires IsSpace(w) && IsSpace(w') && c != [] && Unmarked(c)
    ensures var s := [w] + "_" + c + "_" + [w'];
            forall k :: 0 <= k < |s| - 1 ==> s[k] != '_' || s[k + 1] != '_'
  {
    var s := [w] + "_" + c + "_" + [w'];
    assert forall k :: 2 <= k < 2 + |c| ==> s[k] == c[k - 2];
    assert s[0] == w && s[2] == c[0] && s[3 + |c|] == w';
  }

  /** A doubled character occurs only where two neighbours are both it. */
  lemma NoPair(s: string, ch: char)
    requires forall k :: 0 <= k < |s| - 1 ==> s[k] != ch || s[k + 1] != ch
    ensures forall p: nat :: !OccursAt(s, p, [ch, ch])
  {
    forall p: nat ensures !OccursAt(s, p, [ch, ch]) {
      if p + 2 <= |s| {
        assert s[p..p + 2][0] == s[p] && s[p..p + 2][1] == s[p + 1];
      }
    }
  }

  /** Text free of every emphasis marker character. */
  predicate Unmarked(c: string)
  {
    '*' !in c && '_' !in c && '~' !in c
  }

  /** An emphasis tag with unmarked content is unmarked. */
  lemma TagUnmarked(tag: string, c: string)
    requires Unmarked(tag) && Unmarked(c)
    ensures Unmarked("<" + tag + ">" + c + "</" + tag + ">")
  {
  }

  /** A tag around whitespace-framed unmarked content is unmarked. */
  lemma FramedTagUnmarked(tag: string, w: char, c: string, w': char)
    requires Unmarked(tag) && IsSpace(w) && IsSpace(w') && Unmarked(c)
    ensures Unmarked("<" + tag + ">" + ([w] + c + [w']) + "</" + tag + ">")
  {
  }

  /** The stage, rule by rule. */
  lemma EmphasisSteps(s: string)
    ensures Emphasis(s)
            == Apply(Delimited("~~", "s"), Apply(Bounded("_", "i"), Apply(Bounded("__", "b"),
                 Apply(Delimited("*", "i"), Apply(Delimited("**", "b"), s)))))
  {
    assert EmphasisRules[1..][1..][1..][1..][1..] == [];
  }

  /** Without '*' the two star rules leave the text alone. */
  lemma StarsIdle(s: string)
    requires '*' !in s
    ensures Apply(Delimited("**", "b"), s) == s && Apply(Delimited("*", "i"), s) == s
  {
    AbsentMarker(s, "**");
    AbsentMarker(s, "*");
    DelimitedIdle("**", "b", s);
    DelimitedIdle("*", "i", s);
  }

  /** Without '_' the two underscore rules leave the text alone. */
  lemma UnderscoresIdle(s: string)
    requires '_' !in s
    ensures Apply(Bounded("__", "b"), s) == s && Apply(Bounded("_", "i"), s) == s
  {
    AbsentMarker(s, "__");
    AbsentMarker(s, "_");
    BoundedIdle("__", "b", s);
    BoundedIdle("_", "i", s);
  }

  /** Without '~' the strikethrough rule leaves the text alone. */
  lemma TildesIdle(s: string)
    requires '~' !in s
    ensures Apply(Delimited("~~", "s"), s) == s
  {
    AbsentMarker(s, "~~");
    DelimitedIdle("~~", "s", s);
  }

  /** Unmarked text passes every emphasis rule unchanged. */
  lemma UnmarkedIdle(s: string)
    requires Unmarked(s)
    ensures Emphasis(s) == s
  {
    StarsIdle(s);
    UnderscoresIdle(s);
    TildesIdle(s);
    EmphasisSteps(s);
  }

  lemma BoldRule(c: string)
    requires SpanContent(c) && Unmarked(c)
    ensures Apply(Delimited("**", "b"), "**" + c + "**") == "<b>" + c + "</b>"
  {
    DelimitedSpan("**", "b", c);
    TagText("b", c, "<b>", "</b>");
  }

  /** `**c**` becomes `<b>c</b>`. */
  lemma BoldSpan(c: string)
    requires SpanContent(c) && Unmarked(c)
    ensures Emphasis("**" + c + "**") == "<b>" + c + "</b>"
  {
    var o := "<b>" + c + "</b>";
    BoldRule(c);
    TagUnmarked("b", c);
    StarsIdle(o);
    UnderscoresIdle(o);
    TildesIdle(o);
    StagesOf("**" + c + "**", o, o, o, o, o);
  }

  lemma ItalicRule(c: string)
    requires SpanContent(c) && Unmarked(c)
    ensures Apply(Delimited("**", "b"), "*" + c + "*") == "*" + c + "*"
    ensures Apply(Delimited("*", "i"), "*" + c + "*") == "<i>" + c + "</i>"
  {
    var s := "*" + c + "*";
    forall p: nat ensures !OccursAt(s, p, "**") {
      if p + 2 <= |s| {
        assert s[p..p + 2][0] == s[p] && s[p..p + 2][1] == s[p + 1];
        if p == 0 {
          assert s[1] == c[0];
        } else {
          assert s[p] == c[p - 1];
        }
      }
    }
    DelimitedIdle("**", "b", s);
    DelimitedSpan("*", "i", c);
    TagText("i", c, "<i>", "</i>");
  }

  /** `*c*` becomes `<i>c</i>`; the bold rule finds no `**` in it. */
  lemma ItalicSpan(c: string)
    requires SpanContent(c) && Unmarked(c)
    ensures Emphasis("*" + c + "*") == "<i>" + c + "</i>"
  {
    var s := "*" + c + "*";
    var o := "<i>" + c + "</i>";
    ItalicRule(c);
    TagUnmarked("i", c);
    UnderscoresIdle(o);
    TildesIdle(o);
    StagesOf(s, s, o, o, o, o);
  }

  lemma StrikeRule(c: string)
    requires SpanContent(c) && Unmarked(c)
    ensures Apply(Delimited("~~", "s"), "~~" + c + "~~") == "<s>" + c + "</s>"
  {
    DelimitedSpan("~~", "s", c);
    TagText("s", c, "<s>", "</s>");
  }

  lemma TildesOnly(c: string)
    requires Unmarked(c)
    ensures '*' !in "~~" + c + "~~" && '_' !in "~~" + c + "~~"
  {
  }

  /** `~~c~~` becomes `<s>c</s>`. */
  lemma StrikeSpan(c: string)
    requires SpanContent(c) && Unmarked(c)
    ensures Emphasis("~~" + c + "~~") == "<s>" + c + "</s>"
  {
    var s := "~~" + c + "~~";
    var o := "<s>" + c + "</s>";
    TildesOnly(c);
    StarsIdle(s);
    UnderscoresIdle(s);
    StrikeRule(c);
    StagesOf(s, s, s, s, s, o);
  }

  lemma UnderscoreBoldRule(w: char, c: string, w': char)
    requires IsSpace(w) && IsSpace(w') && SpanContent(c) && Unmarked(c)
    ensures Apply(Bounded("__", "b"), [w] + "__" + c + "__" + [w']) == "<b>" + ([w] + c + [w']) + "</b>"
  {
    BoundedSpan("__", "b", w, c, w');
    TagText("b", [w] + c + [w'], "<b>", "</b>");
  }

  /** ` __c__ ` (between whitespace) becomes `<b> c </b>`. */
  lemma UnderscoreBoldSpan(w: char, c: string, w': char)
    requires IsSpace(w) && IsSpace(w') && SpanContent(c) && Unmarked(c)
    ensures Emphasis([w] + "__" + c + "__" + [w']) == "<b>" + ([w] + c + [w']) + "</b>"
  {
    var s := [w] + "__" + c + "__" + [w'];
    var o := "<b>" + ([w] + c + [w']) + "</b>";
    FramedTagUnmarked("b", w, c, w');
    FramedNoStar(w, "__", c, w');
    StarsIdle(s);
    UnderscoreBoldRule(w, c, w');
    UnderscoresIdle(o);
    TildesIdle(o);
    StagesOf(s, s, s, o, o, o);
  }

  /** The `__` rule finds nothing in ` _c_ `. */
  lemma UnderscoreItalicSkipsBold(w: char, c: string, w': char)
    requires IsSpace(w) && IsSpace(w') && SpanContent(c) && Unmarked(c)
    ensures Apply(Bounded("__", "b"), [w] + "_" + c + "_" + [w']) == [w] + "_" + c + "_" + [w']
  {
    NoDoubleUnderscore(w, c, w');
    BoundedIdle("__", "b", [w] + "_" + c + "_" + [w']);
  }

  lemma UnderscoreItalicRule(w: char, c: string, w': char)
    requires IsSpace(w) && IsSpace(w') && SpanContent(c) && Unmarked(c)
    ensures Apply(Bounded("_", "i"), [w] + "_" + c + "_" + [w']) == "<i>" + ([w] + c + [w']) + "</i>"
  {
    BoundedSpan("_", "i", w, c, w');
    TagText("i", [w] + c + [w'], "<i>", "</i>");
  }

  /** ` _c_ ` (between whitespace) becomes `<i> c </i>`; the `__` rule finds
      no doubled underscore in it. */
  lemma UnderscoreItalicSpan(w: char, c: string, w': char)
    requires IsSpace(w) && IsSpace(w') && SpanContent(c) && Unmarked(c)
    ensures Emphasis([w] + "_" + c + "_" + [w']) == "<i>" + ([w] + c + [w']) + "</i>"
  {
    var s := [w] + "_" + c + "_" + [w'];
    var o := "<i>" + ([w] + c + [w']) + "</i>";
    FramedTagUnmarked("i", w, c, w');
    FramedNoStar(w, "_", c, w');
    StarsIdle(s);
    TildesIdle(o);
    UnderscoreItalicSkipsBold(w, c, w');
    UnderscoreItalicRule(w, c, w');
    StagesOf(s, s, s, s, o, o);
  }

  /** No '*' in `w M c M w'` when there is none in M or c. */
  lemma FramedNoStar(w: char, m: string, c: string, w': char)
    requires IsSpace(w) && IsSpace(w') && '*' !in m && Unmarked(c)
    ensures '*' !in [w] + m + c + m + [w']
  {
  }

  /** The stage through its five intermediate texts. */
  lemma StagesOf(s: string, s1: string, s2: string, s3: string, s4: string, s5: string)
    requires s1 == Apply(Delimited("**", "b"), s) && s2 == Apply(Delimited("*", "i"), s1)
    requires s3 == Apply(Bounded("__", "b"), s2) && s4 == Apply(Bounded("_", "i"), s3)
    requires s5 == Apply(Delimited("~~", "s"), s4)
    ensures Emphasis(s) == s5
  {
    EmphasisSteps(s);
  }

  /** Every '*', '_' and '~' in s directly follows a backslash. */
  predicate AllEscaped(s: string)
  {
    forall k :: 0 <= k < |s| && (s[k] == '*' || s[k] == '_' || s[k] == '~') ==> 0 < k && s[k - 1] == '\\'
  }

  /** Escaped markers open nothing: the stage leaves such text unchanged. */
  lemma EscapedMarkersUntouched(s: string)
    requires AllEscaped(s)
    ensures Emphasis(s) == s
  {
    forall r | r in EmphasisRules ensures Apply(r, s) == s {
      forall p: nat | p < |s| ensures MatchAt(r, s, p).None? {
        if r.Delimited? {
          assert !DelimitedOpens(s, p, r.marker) by {
            if p + |r.marker| <= |s| && s[p..p + |r.marker|] == r.marker {
              assert s[p] == r.marker[0];
            }
          }
        } else {
          assert !BoundedOpens(s, p, r.marker) by {
            if p + 1 + |r.marker| <= |s| && s[p + 1..p + 1 + |r.marker|] == r.marker {
              assert s[p + 1] == '_';
            }
          }
        }
      }
      ApplyUnmatched(r, s);
    }
    ApplyAllIdle(EmphasisRules, s);
  }
}
