/** The link and image stages: `[caption](target)` becomes an anchor unless
    the '[' follows a '!', and `![caption](target)` becomes an image. */
module LinkStage {
  import opened Text
  import opened Rules
  import opened Markdown

  /** ch does not occur in x. */
  predicate Lacks(x: string, ch: char)
  {
    forall k :: 0 <= k < |x| ==> x[k] != ch
  }

  function LinkText(c: string, u: string): string
  {
    "[" + c + "](" + u + ")"
  }

  function ImageText(c: string, u: string): string
  {
    "!" + LinkText(c, u)
  }

  function AnchorHtml(c: string, u: string): string
  {
    "<a href='" + u + "'>" + c + "</a>"
  }

  function ImageHtml(c: string, u: string): string
  {
    "<img src='" + u + "' title='" + c + "' style='max-width: 80%' />"
  }

  /** Caption and target as both rules accept them: each non-empty and on
      one line; the caption holds no ']', so its end is the first "](" */
  predicate LinkParts(c: string, u: string)
  {
    c != [] && u != [] && Lacks(c, '\n') && Lacks(u, '\n') && Lacks(c, ']')
  }

  /** Without a ')' after it, a '[' opens nothing. */
  lemma NoParenNoBracket(s: string, b: nat)
    requires forall k :: b < k < |s| ==> s[k] != ')'
    ensures BracketAt(s, b).None?
  {
  }

  /** No ')' follows t on its line: then no ')' stands after t with only
      non-newline characters between. */
  lemma ParensOnLine(s: string, t: nat)
    requires t < |s| && forall k :: t < k < NewlineFrom(s, t) ==> s[k] != ')'
    ensures forall x :: t < x < |s| && NoNewline(s, t, x + 1) ==> s[x] != ')'
  {
    forall x | t < x < |s| && NoNewline(s, t, x + 1) ensures s[x] != ')' {
      assert x < NewlineFrom(s, t);
    }
  }

  /** The bracket the rules pick at b: the caption ends at the first "](" and
      the target runs to the last ')' of the line. */
  lemma BracketPicks(s: string, b: nat, c: nat, t: nat)
    requires LinkShape(s, b, c, t)
    requires forall k :: b < k < c ==> s[k] != ']'
    requires forall k :: t < k < NewlineFrom(s, t) ==> s[k] != ')'
    ensures BracketAt(s, b) == Some((c, t))
  {
    var r := BracketAt(s, b);
    assert r.Some?;
    var (c', t') := r.value;
    assert s[c'] == ']';
    assert c' == c;
    ParensOnLine(s, t);
    assert NoNewline(s, b, t') && s[t'] == ')';
  }

  /** No ')' on the first line of x. */
  predicate NoParenOnFirstLine(x: string)
  {
    forall k :: 0 <= k < |x| && NoNewline(x, 0, k + 1) ==> x[k] != ')'
  }

  /** s holds, from b on, LinkText(c, u) followed by tail; the caption ends at
      b + 1 + |c| and the closing ')' stands at b + 3 + |c| + |u|. */
  predicate LinkAt(s: string, b: nat, c: string, u: string, tail: string)
  {
    var ce := b + 1 + |c|;
    var t := ce + 2 + |u|;
    |s| == t + 1 + |tail|
    && s[b] == '[' && s[ce] == ']' && s[ce + 1] == '(' && s[t] == ')'
    && s[b + 1..ce] == c && s[ce + 2..t] == u && s[t + 1..] == tail
  }

  lemma LinkChars(pre: string, c: string, u: string, tail: string)
    ensures var s := pre + LinkText(c, u) + tail;
            LinkAt(s, |pre|, c, u, tail) && s[..|pre|] == pre
  {
    var s := pre + LinkText(c, u) + tail;
    assert s == pre + "[" + c + "](" + u + ")" + tail;
  }

  /** From '[' to ')' a link stays on one line. */
  lemma LinkOnOneLine(s: string, b: nat, c: string, u: string, tail: string)
    requires LinkAt(s, b, c, u, tail) && LinkParts(c, u)
    ensures NoNewline(s, b, b + 3 + |c| + |u|)
  {
    var ce := b + 1 + |c|;
    forall k | b <= k < ce + 2 + |u| ensures s[k] != '\n' {
      if b < k < ce {
        assert s[k] == s[b + 1..ce][k - b - 1];
      } else if ce + 1 < k {
        assert s[k] == s[ce + 2..ce + 2 + |u|][k - ce - 2];
      }
    }
  }

  /** The caption holds no ']'. */
  lemma CaptionClear(s: string, b: nat, c: string, u: string, tail: string)
    requires LinkAt(s, b, c, u, tail) && LinkParts(c, u)
    ensures forall k :: b < k < b + 1 + |c| ==> s[k] != ']'
  {
    forall k | b < k < b + 1 + |c| ensures s[k] != ']' {
      assert s[k] == s[b + 1..b + 1 + |c|][k - b - 1];
    }
  }

  /** No ')' follows the link's own on its line. */
  lemma TailClear(s: string, b: nat, c: string, u: string, tail: string)
    requires LinkAt(s, b, c, u, tail) && NoParenOnFirstLine(tail)
    ensures var t := b + 3 + |c| + |u|;
            forall k :: t < k < NewlineFrom(s, t) ==> s[k] != ')'
  {
    var t := b + 3 + |c| + |u|;
    forall k | t < k < NewlineFrom(s, t) ensures s[k] != ')' {
      var j := k - t - 1;
      assert NoNewline(tail, 0, j + 1) by {
        forall m | 0 <= m <= j ensures tail[m] != '\n' {
          assert tail[m] == s[t + 1..][m];
        }
      }
      assert tail[j] == s[k];
    }
  }

  /** The bracket picked at the '[' of a link written out in full: its own
      "](" and its own ')', when the line holds no ')' after it. */
  lemma LinkBracket(s: string, b: nat, c: string, u: string, tail: string)
    requires LinkAt(s, b, c, u, tail) && LinkParts(c, u) && NoParenOnFirstLine(tail)
    ensures BracketAt(s, b) == Some((b + 1 + |c|, b + 3 + |c| + |u|))
  {
    LinkOnOneLine(s, b, c, u, tail);
    CaptionClear(s, b, c, u, tail);
    TailClear(s, b, c, u, tail);
    BracketPicks(s, b, b + 1 + |c|, b + 3 + |c| + |u|);
  }

  /** A link not preceded by '!' is one match, which ends at its own ')' when
      no later ')' stands on its line; the target may itself hold ')' and
      "](": it runs to that last ')'. */
  lemma LinkMatch(pre: string, c: string, u: string, tail: string)
    requires LinkParts(c, u) && NoParenOnFirstLine(tail)
    requires pre == [] || pre[|pre| - 1] != '!'
    ensures var s := pre + LinkText(c, u) + tail;
            MatchAt(Link, s, |pre|) == Some(Match(|s| - |tail|, AnchorHtml(c, u)))
  {
    var s := pre + LinkText(c, u) + tail;
    LinkChars(pre, c, u, tail);
    if |pre| > 0 {
      assert s[|pre| - 1] == s[..|pre|][|pre| - 1];
    }
    LinkMatchAt(s, |pre|, c, u, tail);
  }

  lemma LinkMatchAt(s: string, b: nat, c: string, u: string, tail: string)
    requires LinkAt(s, b, c, u, tail) && LinkParts(c, u) && NoParenOnFirstLine(tail)
    requires b == 0 || s[b - 1] != '!'
    ensures MatchAt(Link, s, b) == Some(Match(|s| - |tail|, AnchorHtml(c, u)))
  {
    LinkBracket(s, b, c, u, tail);
  }

  /** A line holding one link, with no '[' before it and no ')' after it,
      has just that link replaced by an anchor. */
  lemma LinksOne(pre: string, c: string, u: string, tail: string)
    requires LinkParts(c, u) && Lacks(pre, '[') && Lacks(tail, ')')
    requires pre == [] || pre[|pre| - 1] != '!'
    ensures Links(pre + LinkText(c, u) + tail) == pre + AnchorHtml(c, u) + tail
  {
    var s := pre + LinkText(c, u) + tail;
    LinkChars(pre, c, u, tail);
    LinkMatch(pre, c, u, tail);
    NoLinkInPre(s, pre);
    NoLinkInTail(s, tail);
    ApplyOneMatch(Link, s, |pre|);
  }

  lemma NoLinkInPre(s: string, pre: string)
    requires |pre| <= |s| && s[..|pre|] == pre && Lacks(pre, '[')
    ensures forall p: nat :: p < |pre| ==> MatchAt(Link, s, p).None?
  {
    forall p: nat | p < |pre| ensures MatchAt(Link, s, p).None? {
      assert s[p] == s[..|pre|][p];
    }
  }

  lemma NoLinkInTail(s: string, tail: string)
    requires |tail| <= |s| && s[|s| - |tail|..] == tail && Lacks(tail, ')')
    ensures forall p: nat :: |s| - |tail| <= p < |s| ==> MatchAt(Link, s, p).None?
  {
    var e := |s| - |tail|;
    forall p: nat | e <= p < |s| ensures MatchAt(Link, s, p).None? {
      forall k | p < k < |s| ensures s[k] != ')' {
        assert s[k] == s[e..][k - e];
      }
      NoParenNoBracket(s, p);
    }
  }


  lemma ImageChars(pre: string, c: string, u: string, tail: string)
    ensures var s := pre + ImageText(c, u) + tail;
            s[|pre|] == '!' && LinkAt(s, |pre| + 1, c, u, tail) && s[..|pre|] == pre
  {
    var s := pre + ImageText(c, u) + tail;
    assert s == (pre + "!") + LinkText(c, u) + tail;
    LinkChars(pre + "!", c, u, tail);
  }

  /** At a '!' right before a link the image rule takes the link's caption
      as the title and its target as the source. */
  lemma ImageMatchAt(s: string, b: nat, c: string, u: string, tail: string)
    requires b < |s| && s[b] == '!'
    requires LinkAt(s, b + 1, c, u, tail) && LinkParts(c, u) && NoParenOnFirstLine(tail)
    ensures MatchAt(Image, s, b) == Some(Match(|s| - |tail|, ImageHtml(c, u)))
  {
    LinkBracket(s, b + 1, c, u, tail);
  }

  /** A line holding one image, with no '!' before it and no ')' after it,
      has just that image replaced by an `<img>` element. */
  lemma ImagesOne(pre: string, c: string, u: string, tail: string)
    requires LinkParts(c, u) && Lacks(pre, '!') && Lacks(tail, ')')
    ensures Images(pre + ImageText(c, u) + tail) == pre + ImageHtml(c, u) + tail
  {
    ImageChars(pre, c, u, tail);
    ImagesOneAt(pre + ImageText(c, u) + tail, |pre|, c, u, tail);
  }

  /** ImagesOne on the text itself, the image starting at b. */
  lemma ImagesOneAt(s: string, b: nat, c: string, u: string, tail: string)
    requires b < |s| && s[b] == '!' && LinkAt(s, b + 1, c, u, tail)
    requires LinkParts(c, u) && Lacks(s[..b], '!') && Lacks(tail, ')')
    ensures Images(s) == s[..b] + ImageHtml(c, u) + tail
  {
    ImageMatchAt(s, b, c, u, tail);
    NoImageBefore(s, b);
    NoImageInTail(s, tail);
    ApplyOneMatch(Image, s, b);
  }

  lemma NoImageBefore(s: string, b: nat)
    requires b <= |s| && Lacks(s[..b], '!')
    ensures forall p: nat :: p < b ==> MatchAt(Image, s, p).None?
  {
    forall p: nat | p < b ensures MatchAt(Image, s, p).None? {
      assert s[p] == s[..b][p];
    }
  }

  lemma NoImageInTail(s: string, tail: string)
    requires |tail| <= |s| && s[|s| - |tail|..] == tail && Lacks(tail, ')')
    ensures forall p: nat :: |s| - |tail| <= p < |s| ==> MatchAt(Image, s, p).None?
  {
    var e := |s| - |tail|;
    forall p: nat | e <= p < |s| ensures MatchAt(Image, s, p).None? {
      forall k | p + 1 < k < |s| ensures s[k] != ')' {
        assert s[k] == s[e..][k - e];
      }
      NoParenNoBracket(s, p + 1);
    }
  }

  /** Inside a link whose caption and target hold no '[', only its first
      character is a '['. */
  lemma LinkBodyClear(s: string, b: nat, c: string, u: string, tail: string)
    requires LinkAt(s, b, c, u, tail) && Lacks(c, '[') && Lacks(u, '[')
    ensures forall p :: b < p <= b + 3 + |c| + |u| ==> s[p] != '['
  {
    var ce := b + 1 + |c|;
    forall p | b < p <= ce + 2 + |u| ensures s[p] != '[' {
      if p < ce {
        assert s[p] == s[b + 1..ce][p - b - 1];
      } else if ce + 1 < p < ce + 2 + |u| {
        assert s[p] == s[ce + 2..ce + 2 + |u|][p - ce - 2];
      }
    }
  }

  /** The link rule leaves an image alone: its '[' follows a '!'. */
  lemma LinksSkipImage(pre: string, c: string, u: string, tail: string)
    requires LinkParts(c, u) && Lacks(pre, '[') && Lacks(c, '[') && Lacks(u, '[') && Lacks(tail, ')')
    ensures Links(pre + ImageText(c, u) + tail) == pre + ImageText(c, u) + tail
  {
    var s := pre + ImageText(c, u) + tail;
    var b := |pre| + 1;
    ImageChars(pre, c, u, tail);
    NoLinkInPre(s, pre);
    LinkBodyClear(s, b, c, u, tail);
    NoLinkInTail(s, tail);
    forall p: nat | p < |s| ensures MatchAt(Link, s, p).None? {
      if p == b {
        assert s[p - 1] == '!';
      } else if |pre| <= p < b || b < p < |s| - |tail| {
        assert s[p] != '[';
      }
    }
    ApplyUnmatched(Link, s);
  }

  /** Through the link and image stages an image becomes an `<img>`
      element, never an anchor. */
  lemma ImageThroughLinks(pre: string, c: string, u: string, tail: string)
    requires LinkParts(c, u) && Lacks(pre, '[') && Lacks(pre, '!')
    requires Lacks(c, '[') && Lacks(u, '[') && Lacks(tail, ')')
    ensures Images(Links(pre + ImageText(c, u) + tail)) == pre + ImageHtml(c, u) + tail
  {
    LinksSkipImage(pre, c, u, tail);
    ImagesOne(pre, c, u, tail);
  }

  /** The `(?<!!)` lookbehind, for every text: a stretch the link stage
      replaces (a `HitFits` piece, as `Rules.ApplyPieces` gives every hit)
      starts at a '[' that opens the text or follows a character other than
      '!', so the '[' of an image never starts an anchor. */
  lemma LinkHitsNotAfterBang(s: string)
    ensures forall o: nat, src: string, out: string :: HitFits(Link, s, o, src, out) ==>
              s[o] == '[' && (o == 0 || s[o - 1] != '!')
  {
    forall o: nat, src: string, out: string | HitFits(Link, s, o, src, out)
      ensures s[o] == '[' && (o == 0 || s[o - 1] != '!')
    {
      LinkMatchStart(s, o);
    }
  }

  lemma LinkMatchStart(s: string, o: nat)
    requires MatchAt(Link, s, o).Some?
    ensures o < |s| && s[o] == '[' && (o == 0 || s[o - 1] != '!')
  {
    assert BracketAt(s, o).Some?;
  }

  /** For every text, a stretch the image stage replaces starts at a '!'
      directly followed by '['. */
  lemma ImageHitsAtBang(s: string)
    ensures forall o: nat, src: string, out: string :: HitFits(Image, s, o, src, out) ==>
              o + 1 < |s| && s[o] == '!' && s[o + 1] == '['
  {
    forall o: nat, src: string, out: string | HitFits(Image, s, o, src, out)
      ensures o + 1 < |s| && s[o] == '!' && s[o + 1] == '['
    {
      ImageMatchStart(s, o);
    }
  }

  lemma ImageMatchStart(s: string, o: nat)
    requires MatchAt(Image, s, o).Some?
    ensures o + 1 < |s| && s[o] == '!' && s[o + 1] == '['
  {
    assert BracketAt(s, o + 1).Some?;
  }

  /** Text without '[' is left alone by the link and the image rule. */
  lemma NoBracketIdle(s: string)
    requires Lacks(s, '[')
    ensures Links(s) == s && Images(s) == s
  {
    forall p: nat | p < |s| ensures MatchAt(Link, s, p).None? && MatchAt(Image, s, p).None? {
      assert s[p] != '[';
      if p + 1 < |s| { assert s[p + 1] != '['; }
    }
    ApplyUnmatched(Link, s);
    ApplyUnmatched(Image, s);
  }
}
