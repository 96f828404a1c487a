/** Whole lines through all of `parseMD`: the stages one after the other,
    each leaving alone what the earlier ones produced. */
module Document {
  import opened Text
  import opened Rules
  import opened Markdown
  import opened HeadingStage
  import opened EmphasisStage
  import opened LinebreakStage
  import opened ParagraphStage
  import opened LinkStage
  import opened UnescapeStage

  /** One line with no emphasis marker, no backslash and no '['. */
  predicate PlainLine(t: string)
  {
    OneLine(t, 0, |t|) && Unmarked(t) && '\\' !in t && Lacks(t, '[')
  }

  /** Without '[' and backslashes, the link, image and unescape stages
      change nothing. */
  lemma LateStagesIdle(h: string)
    requires '\\' !in h && Lacks(h, '[')
    ensures Unescape(Images(Links(h))) == h
  {
    NoBracketIdle(h);
    UnescapeBounds(h);
  }

  /** A plain line that opens with '<' and ends with '>' is left alone by
      every stage after the headings. */
  lemma TaggedLineStays(h: string)
    requires PlainLine(h) && h != [] && h[0] == '<' && h[|h| - 1] == '>'
    ensures Unescape(Images(Links(Paragraphs(LineBreaks(Emphasis(h)))))) == h
  {
    UnmarkedIdle(h);
    OneLineUnbroken(h);
    NoLetterLineUntouched(h);
    LateStagesIdle(h);
  }

  /** The heading produced from a plain text is a plain line in angle brackets. */
  lemma HeadingHtmlPlain(n: nat, t: string)
    requires PlainLine(t)
    ensures var h := HeadingHtml(n, t);
            PlainLine(h) && h != [] && h[0] == '<' && h[|h| - 1] == '>'
  {
    var h := HeadingHtml(n, t);
    HtmlOneLine(n, t);
    var tag := HeadlineTag(n);
    assert forall k :: 0 <= k < |tag| ==> tag[k] == 'h' || '0' <= tag[k] <= '9';
    assert Lacks(h, '[') by {
      forall k | 0 <= k < |h| ensures h[k] != '[' {
        assert h[k] in h;
      }
    }
  }

  /** A heading line of one to three hashes with plain text becomes the
      heading and nothing else: no later stage touches it. */
  lemma HeadingDocument(n: nat, ws: string, t: string)
    requires 1 <= n <= 3 && HeadingShape(n, ws, t) && PlainLine(t)
    ensures Pipeline(Hashes(n) + ws + t) == HeadingHtml(n, t)
  {
    HeadingLine(n, ws, t);
    HeadingHtmlPlain(n, t);
    TaggedLineStays(HeadingHtml(n, t));
  }

  /** A plain line opening with a letter, and ending in neither a space nor
      a backslash, becomes one paragraph and nothing else. */
  lemma ParagraphDocument(t: string)
    requires PlainLine(t) && t != [] && IsLetter(t[0]) && t[|t| - 1] != ' '
    ensures Pipeline(t) == "<p>" + t + "</p>"
  {
    EarlyStagesIdle(t);
    BlockWrapped(t);
    ParagraphPlain(t);
    LateStagesIdle("<p>" + t + "</p>");
  }

  /** The stages before the paragraphs leave such a line alone. */
  lemma EarlyStagesIdle(t: string)
    requires PlainLine(t) && t != [] && IsLetter(t[0]) && t[|t| - 1] != ' '
    ensures LineBreaks(Emphasis(Headings(t))) == t
  {
    NoHashLineUntouched(t);
    UnmarkedIdle(t);
    OneLineUnbroken(t);
  }

  lemma ParagraphPlain(t: string)
    requires PlainLine(t)
    ensures '\\' !in "<p>" + t + "</p>" && Lacks("<p>" + t + "</p>", '[')
  {
    var p := "<p>" + t + "</p>";
    forall k | 0 <= k < |p| ensures p[k] != '[' {
      assert p[k] in p;
    }
  }
}
