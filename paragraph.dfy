/** The paragraph stage: every maximal run of letter-initial lines joined by
    '\n' is wrapped in `<p>`…`</p>`; nothing else changes. */
module ParagraphStage {
  import opened Text
  import opened Rules
  import opened Markdown

  /** A paragraph block: text in the language of `[A-Za-z].*(?:\n[A-Za-z].*)*`. */
  predicate Block(b: string)
  {
    ParagraphSpan(b, 0, |b|)
  }

  /** What a piece of the stage's scan starting at offset o of the input is:
      a kept character is one that does not start a letter-initial line; a
      hit is a block starting at a line start that can be extended no
      further, and is replaced by itself between `<p>` and `</p>`. */
  predicate ShapeAt(s: string, o: nat, pc: Piece)
  {
    o < |s|
    && (pc.Kept? ==> pc.c == s[o] && !(AtLineStart(s, o) && IsLetter(s[o])))
    && (pc.Hit? ==> var e := o + |pc.src|;
                    e <= |s| && pc.src == s[o..e] && pc.out == "<p>" + pc.src + "</p>"
                    && AtLineStart(s, o) && ParagraphSpan(s, o, e)
                    && AtLineEnd(s, e) && !Continues(s, e))
  }

  /** The k-th piece of a scan, at the offset where it starts. */
  predicate PieceShape(s: string, ps: seq<Piece>, k: nat)
    requires k < |ps|
  {
    ShapeAt(s, |Sources(ps[..k])|, ps[k])
  }

  /** What a paragraph match at o is. */
  lemma ParagraphHit(s: string, o: nat, m: Match)
    requires MatchAt(Paragraph, s, o) == Some(m)
    ensures o < m.end <= |s| && m.out == "<p>" + s[o..m.end] + "</p>"
    ensures AtLineStart(s, o) && ParagraphSpan(s, o, m.end) && AtLineEnd(s, m.end) && !Continues(s, m.end)
  {
  }

  /** Where the paragraph rule does not match. */
  lemma ParagraphMiss(s: string, o: nat)
    requires o < |s|
    ensures MatchAt(Paragraph, s, o).None? <==> !(AtLineStart(s, o) && IsLetter(s[o]))
  {
  }

  lemma HitShape(s: string, o: nat, src: string, out: string)
    requires HitFits(Paragraph, s, o, src, out)
    ensures ShapeAt(s, o, Hit(src, out))
  {
    ParagraphHit(s, o, Match(o + |src|, out));
  }

  lemma KeptShape(s: string, o: nat, c: char)
    requires KeptFits(Paragraph, s, o, c)
    ensures ShapeAt(s, o, Kept(c))
  {
    ParagraphMiss(s, o);
  }

  lemma ParagraphPiece(s: string, k: nat)
    requires k < |Scan(Matches(Paragraph, s), s, 0)|
    ensures PieceShape(s, Scan(Matches(Paragraph, s), s, 0), k)
  {
    var ps := Scan(Matches(Paragraph, s), s, 0);
    if ps[k].Hit? {
      HitPiece(s, k);
    } else {
      KeptPiece(s, k);
    }
  }

  lemma HitPiece(s: string, k: nat)
    requires k < |Scan(Matches(Paragraph, s), s, 0)| && Scan(Matches(Paragraph, s), s, 0)[k].Hit?
    ensures PieceShape(s, Scan(Matches(Paragraph, s), s, 0), k)
  {
    var ps := Scan(Matches(Paragraph, s), s, 0);
    HitPieceAt(Paragraph, s, k);
    var o := |Sources(ps[..k])|;
    HitShape(s, o, ps[k].src, ps[k].out);
  }

  lemma KeptPiece(s: string, k: nat)
    requires k < |Scan(Matches(Paragraph, s), s, 0)| && Scan(Matches(Paragraph, s), s, 0)[k].Kept?
    ensures PieceShape(s, Scan(Matches(Paragraph, s), s, 0), k)
  {
    var ps := Scan(Matches(Paragraph, s), s, 0);
    KeptPieceAt(Paragraph, s, k);
    var o := |Sources(ps[..k])|;
    KeptShape(s, o, ps[k].c);
  }

  /** The stage piece by piece: the scan covers the input exactly, its
      outputs are the stage's result, and every piece has the shape above. */
  lemma ParagraphPieces(s: string)
    ensures var ps := Scan(Matches(Paragraph, s), s, 0);
            Sources(ps) == s && Outputs(ps) == Paragraphs(s)
            && forall k: nat :: k < |ps| ==> PieceShape(s, ps, k)
  {
    var ms := Matches(Paragraph, s);
    ScanCovers(ms, s, 0);
    assert s[0..] == s;
    forall k: nat | k < |Scan(ms, s, 0)| ensures PieceShape(s, Scan(ms, s, 0), k) {
      ParagraphPiece(s, k);
    }
  }

  /** A paragraph match starting inside a span that extends to hi runs to hi:
      it can stop only at a line end that cannot be continued. */
  lemma MatchRunsToSpanEnd(s: string, p: nat, hi: nat)
    requires ParagraphSpan(s, p, hi) && AtLineStart(s, p)
    ensures ParagraphAt(s, p).Some? && ParagraphAt(s, p).value >= hi
  {
    InnerLineEndsContinue(s, p, hi);
  }

  /** Every line end strictly inside a span can be continued. */
  lemma InnerLineEndsContinue(s: string, p: nat, hi: nat)
    requires ParagraphSpan(s, p, hi)
    ensures forall e: nat :: p <= e < hi && AtLineEnd(s, e) ==> Continues(s, e)
  {
    forall e: nat | p <= e < hi && AtLineEnd(s, e) ensures Continues(s, e) {
      assert IsLineTerminator(s[e]);
    }
  }

  /** A block is wrapped whole: the match at its start cannot stop at an
      inner line end, because every inner '\n' is followed by a letter. */
  lemma BlockWrapped(b: string)
    requires Block(b)
    ensures Paragraphs(b) == "<p>" + b + "</p>"
  {
    MatchRunsToSpanEnd(b, 0, |b|);
    assert b[0..|b|] == b;
    ApplyWhole(Paragraph, b, "<p>" + b + "</p>");
  }

  /** Two letter-initial lines form one paragraph. */
  lemma TwoLinesOneParagraph(a: string, b: string)
    requires a != [] && IsLetter(a[0]) && OneLine(a, 0, |a|)
    requires b != [] && IsLetter(b[0]) && OneLine(b, 0, |b|)
    ensures Paragraphs(a + "\n" + b) == "<p>" + a + "\n" + b + "</p>"
  {
    var s := a + "\n" + b;
    assert forall k :: 0 <= k < |a| ==> s[k] == a[k];
    assert forall k :: |a| < k < |s| ==> s[k] == b[k - |a| - 1];
    assert s[|a|] == '\n' && s[|a| + 1] == b[0];
    BlockWrapped(s);
  }

  /** At the start of `a`, blank line, rest: the match is exactly `a`. */
  lemma BlockBeforeBlank(a: string, rest: string)
    requires Block(a)
    ensures var s := a + "\n\n" + rest;
            MatchAt(Paragraph, s, 0) == Some(Match(|a|, "<p>" + a + "</p>"))
  {
    var s := a + "\n\n" + rest;
    assert forall k :: 0 <= k < |a| ==> s[k] == a[k];
    assert ParagraphSpan(s, 0, |a|);
    MatchRunsToSpanEnd(s, 0, |a|);
    assert IsLineTerminator(s[|a|]) && s[|a| + 1] == '\n';
    assert s[0..|a|] == a;
  }

  /** A block that is a suffix of s spans from its start to the end of s. */
  lemma SpanOfSuffix(s: string, n: nat)
    requires n <= |s| && Block(s[n..])
    ensures ParagraphSpan(s, n, |s|)
  {
    var b := s[n..];
    assert s[n] == b[0];
    forall k | n <= k < |s| && IsLineTerminator(s[k])
      ensures s[k] == '\n' && k + 1 < |s| && IsLetter(s[k + 1])
    {
      assert s[k] == b[k - n];
      if k + 1 < |s| {
        assert s[k + 1] == b[k + 1 - n];
      }
    }
  }

  /** A block at a line start that runs to the end of the text is one match. */
  lemma BlockAtEnd(s: string, n: nat)
    requires 0 < n <= |s| && s[n - 1] == '\n' && Block(s[n..])
    ensures MatchAt(Paragraph, s, n) == Some(Match(|s|, "<p>" + s[n..] + "</p>"))
  {
    SpanOfSuffix(s, n);
    MatchRunsToSpanEnd(s, n, |s|);
    assert s[n..|s|] == s[n..];
  }

  /** The block that ends the text is wrapped as the last piece. */
  lemma LastBlock(s: string, n: nat)
    requires 0 < n <= |s| && s[n - 1] == '\n' && Block(s[n..])
    ensures Outputs(Scan(Matches(Paragraph, s), s, n)) == "<p>" + s[n..] + "</p>"
  {
    BlockAtEnd(s, n);
    ScanHit(Paragraph, s, n);
    assert Scan(Matches(Paragraph, s), s, |s|) == [];
  }

  /** The blank line is kept and the block after it is wrapped. */
  lemma BlankThenBlock(a: string, b: string)
    requires Block(b)
    ensures var s := a + "\n\n" + b;
            Outputs(Scan(Matches(Paragraph, s), s, |a|)) == "\n\n" + ("<p>" + b + "</p>")
  {
    BlankAt(a, b);
    BlankThenLastBlock(a + "\n\n" + b, |a|);
  }

  /** A blank line at n, then a block that runs to the end of s. */
  predicate BlankThenRest(s: string, n: nat)
  {
    n + 1 < |s| && s[n] == '\n' && s[n + 1] == '\n' && Block(s[n + 2..])
  }

  /** BlankThenBlock on the text itself. */
  lemma BlankThenLastBlock(s: string, n: nat)
    requires BlankThenRest(s, n)
    ensures Outputs(Scan(Matches(Paragraph, s), s, n)) == "\n\n" + ("<p>" + s[n + 2..] + "</p>")
  {
    LastBlock(s, n + 2);
    NewlinesKept(s, n, "<p>" + s[n + 2..] + "</p>");
  }

  lemma BlankAt(a: string, b: string)
    requires Block(b)
    ensures var s := a + "\n\n" + b;
            BlankThenRest(s, |a|) && s[|a| + 2..] == b
  {
    var s := a + "\n\n" + b;
    assert s[|a| + 2..] == b;
  }

  /** Two newlines in a row are kept as they are. */
  lemma NewlinesKept(s: string, n: nat, rest: string)
    requires n + 1 < |s| && s[n] == '\n' && s[n + 1] == '\n'
    requires Outputs(Scan(Matches(Paragraph, s), s, n + 2)) == rest
    ensures Outputs(Scan(Matches(Paragraph, s), s, n)) == "\n\n" + rest
  {
    var ms := Matches(Paragraph, s);
    NewlineKept(s, n);
    NewlineKept(s, n + 1);
    BlankLineText(Outputs(Scan(ms, s, n)), Outputs(Scan(ms, s, n + 1)), rest);
  }

  /** A newline starts no paragraph and is copied. */
  lemma NewlineKept(s: string, n: nat)
    requires n < |s| && s[n] == '\n'
    ensures var ms := Matches(Paragraph, s);
            Outputs(Scan(ms, s, n)) == "\n" + Outputs(Scan(ms, s, n + 1))
  {
    ParagraphMiss(s, n);
    ScanMiss(Paragraph, s, n);
  }

  lemma BlankLineText(x: string, y: string, z: string)
    requires x == "\n" + y && y == "\n" + z
    ensures x == "\n\n" + z
  {
  }

  /** Two blocks separated by a blank line form two paragraphs; the blank
      line is kept between them. */
  lemma BlankLineSeparates(a: string, b: string)
    requires Block(a) && Block(b)
    ensures Paragraphs(a + "\n\n" + b) == "<p>" + a + "</p>" + "\n\n" + "<p>" + b + "</p>"
  {
    var s := a + "\n\n" + b;
    var ms := Matches(Paragraph, s);
    FirstBlock(a, b);
    BlankThenBlock(a, b);
    TwoParagraphsText(Outputs(Scan(ms, s, 0)), Outputs(Scan(ms, s, |a|)), a, b);
  }

  /** The block that starts the text, before a blank line, is wrapped first. */
  lemma FirstBlock(a: string, b: string)
    requires Block(a)
    ensures var s := a + "\n\n" + b;
            var ms := Matches(Paragraph, s);
            Outputs(Scan(ms, s, 0)) == "<p>" + a + "</p>" + Outputs(Scan(ms, s, |a|))
  {
    BlockBeforeBlank(a, b);
    ScanHit(Paragraph, a + "\n\n" + b, 0);
  }

  lemma TwoParagraphsText(x: string, y: string, a: string, b: string)
    requires x == "<p>" + a + "</p>" + y && y == "\n\n" + ("<p>" + b + "</p>")
    ensures x == "<p>" + a + "</p>" + "\n\n" + "<p>" + b + "</p>"
  {
  }

  /** Text in which no line starts with a letter passes the stage unchanged
      (so do the `<h1>`…`<h3>` lines of the heading stage). */
  lemma NoLetterLineUntouched(s: string)
    requires forall p: nat :: p < |s| && AtLineStart(s, p) ==> !IsLetter(s[p])
    ensures Paragraphs(s) == s
  {
    ApplyUnmatched(Paragraph, s);
  }
}
