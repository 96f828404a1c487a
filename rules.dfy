/** The rule tables of the markdown parser and the engine that applies one
    rule the way JavaScript's `String.prototype.replace` applies a global
    regular expression: matches are found leftmost first, do not overlap,
    and every lookbehind or anchor looks at the text as it was before the
    rule started. Each regular expression is written out by hand as a
    matcher; the predicates next to it state declaratively which spans the
    expression matches, and the matchers' contracts say that they pick the
    span the backtracking order picks (lazy parts as short as possible,
    greedy parts as long as possible). */
module Rules {
  import opened Text

  /** One entry of a rule table: a global regular expression with its template. */
  datatype Rule =
    | Headline(level: nat, suffix: string) // /^#{level}\s+(.+)$/gm   -> <hN>$1</hN>suffix
    | Delimited(marker: string, tag: string) // /(?<!\\)M([^\n]*?[^\n\\])M/g  -> <tag>$1</tag>
    | Bounded(marker: string, tag: string) // /(\s)M([^_\n]*?[^\n\\])M(\s)/g -> <tag>$1$2$3</tag>
    | LineBreak // /(?:  |\\)$/gm -> <br>
    | Paragraph // /^([A-Za-z].*(?:\n[A-Za-z].*)*)/gm -> <p>$1</p>
    | Link // /(?<!!)\[([^\n]+?)\]\(([^\n]+)\)/g -> <a href='$2'>$1</a>
    | Image // /!\[([^\n]+?)\]\(([^\n]+)\)/g -> <img src='$2' title='$1' ... />
    | Escape(escaped: char) // /\\M/g -> M

  /** A match ending at `end` (exclusive) and the text its template produces. */
  datatype Match = Match(end: nat, out: string)

  const HeadlineRules: seq<Rule> := [Headline(3, ""), Headline(2, ""), Headline(1, "<hr>")]
  const EmphasisRules: seq<Rule> :=
    [Delimited("**", "b"), Delimited("*", "i"), Bounded("__", "b"), Bounded("_", "i"), Delimited("~~", "s")]
  const EscapeRules: seq<Rule> := [Escape('*'), Escape('_'), Escape('~')]

  // ---------------------------------------------------------------- headlines

  /** `^#{n}` matches at p. */
  predicate HeadlineOpens(s: string, p: nat, n: nat)
  {
    AtLineStart(s, p) && p + n <= |s| && forall k :: p <= k < p + n ==> s[k] == '#'
  }

  /** After `^#{n}` at p, `\s+` can stop at st and `(.+)` can start there. */
  predicate HeadlineText(s: string, p: nat, n: nat, st: nat)
  {
    p + n < st < |s| && (forall k :: p + n <= k < st ==> IsSpace(s[k])) && !IsLineTerminator(s[st])
  }

  /** Backtracking of the greedy `\s+`: the last st in (lo, hi] where `(.+)` can start. */
  function BacktrackSpaces(s: string, lo: nat, hi: nat): (r: Option<nat>)
    requires lo <= hi <= |s|
    ensures r.Some? ==> lo < r.value <= hi && r.value < |s| && !IsLineTerminator(s[r.value])
    ensures forall st: nat :: lo < st <= hi && (r.None? || r.value < st) ==> st == |s| || IsLineTerminator(s[st])
    decreases hi
  {
    if hi <= lo then None
    else if hi < |s| && !IsLineTerminator(s[hi]) then Some(hi)
    else BacktrackSpaces(s, lo, hi - 1)
  }

  /** Where the headline's captured text starts, if `^#{n}\s+(.+)$` matches at p. */
  function HeadlineAt(s: string, p: nat, n: nat): (r: Option<nat>)
    ensures r.Some? <==> HeadlineOpens(s, p, n) && exists st: nat :: HeadlineText(s, p, n, st)
    ensures r.Some? ==> HeadlineText(s, p, n, r.value)
    ensures r.Some? ==> forall st: nat :: HeadlineText(s, p, n, st) ==> st <= r.value
  {
    if !HeadlineOpens(s, p, n) || p + n == |s| || !IsSpace(s[p + n]) then None
    else
      var w := SpaceRunEnd(s, p + n);
      var r := BacktrackSpaces(s, p + n, w);
      assert forall st: nat :: HeadlineText(s, p, n, st) ==> st <= w;
      assert r.Some? ==> HeadlineText(s, p, n, r.value);
      r
  }

  /** The tag name of a headline level: h1, h2, h3. */
  function HeadlineTag(n: nat): string
  {
    "h" + Digits(n)
  }

  // ---------------------------------------------------------------- emphasis

  /** The captured content s[cs..q] may end at q, where the closing marker m
      starts. `[^\n]*?[^\n\\]` for the star and tilde rules; with `bounded`,
      `[^_\n]*?[^\n\\]` followed by the marker and a `(\s)`. */
  predicate Closes(s: string, cs: nat, q: nat, m: string, bounded: bool)
  {
    cs < q && q + |m| + (if bounded then 1 else 0) <= |s|
    && (forall k :: cs <= k < q - 1 ==> s[k] != '\n' && (bounded ==> s[k] != '_'))
    && s[q - 1] != '\n' && s[q - 1] != '\\'
    && s[q..q + |m|] == m
    && (bounded ==> IsSpace(s[q + |m|]))
  }

  /** The lazy search for the closing marker, from candidate end q upwards. */
  function FindClose(s: string, cs: nat, m: string, bounded: bool, q: nat): (r: Option<nat>)
    requires cs < q <= |s| + 1
    requires forall k :: cs <= k < q - 2 ==> s[k] != '\n' && (bounded ==> s[k] != '_')
    ensures r.Some? ==> q <= r.value && Closes(s, cs, r.value, m, bounded)
    ensures forall q': nat :: q <= q' && (r.None? || q' < r.value) ==> !Closes(s, cs, q', m, bounded)
    decreases |s| + 1 - q
  {
    if q > |s| then None
    else if q - 2 >= cs && (s[q - 2] == '\n' || (bounded && s[q - 2] == '_')) then
      None
    else if Closes(s, cs, q, m, bounded) then Some(q)
    else FindClose(s, cs, m, bounded, q + 1)
  }

  /** `(?<!\\)M` matches at p. */
  predicate DelimitedOpens(s: string, p: nat, m: string)
  {
    p + |m| <= |s| && (p == 0 || s[p - 1] != '\\') && s[p..p + |m|] == m
  }

  /** The content opened by marker m at p may end at q. */
  predicate DelimitedCloses(s: string, p: nat, m: string, q: nat)
  {
    Closes(s, p + |m|, q, m, false)
  }

  /** Where the content of `(?<!\\)M([^\n]*?[^\n\\])M` ends, if it matches at p. */
  function DelimitedAt(s: string, p: nat, m: string): (r: Option<nat>)
    ensures r.Some? <==> DelimitedOpens(s, p, m) && exists q: nat :: DelimitedCloses(s, p, m, q)
    ensures r.Some? ==> DelimitedCloses(s, p, m, r.value)
    ensures r.Some? ==> forall q: nat :: q < r.value ==> !DelimitedCloses(s, p, m, q)
  {
    if !DelimitedOpens(s, p, m) then None
    else
      var r := FindClose(s, p + |m|, m, false, p + |m| + 1);
      assert forall q: nat :: DelimitedCloses(s, p, m, q) ==> Closes(s, p + |m|, q, m, false) && p + |m| + 1 <= q;
      assert r.Some? ==> DelimitedCloses(s, p, m, r.value);
      r
  }

  /** `(\s)M` matches at p. */
  predicate BoundedOpens(s: string, p: nat, m: string)
  {
    p + 1 + |m| <= |s| && IsSpace(s[p]) && s[p + 1..p + 1 + |m|] == m
  }

  /** The content opened by whitespace and marker m at p may end at q. */
  predicate BoundedCloses(s: string, p: nat, m: string, q: nat)
  {
    Closes(s, p + 1 + |m|, q, m, true)
  }

  /** Where the content of `(\s)M([^_\n]*?[^\n\\])M(\s)` ends, if it matches at p. */
  function BoundedAt(s: string, p: nat, m: string): (r: Option<nat>)
    ensures r.Some? <==> BoundedOpens(s, p, m) && exists q: nat :: BoundedCloses(s, p, m, q)
    ensures r.Some? ==> BoundedCloses(s, p, m, r.value)
    ensures r.Some? ==> forall q: nat :: q < r.value ==> !BoundedCloses(s, p, m, q)
  {
    if !BoundedOpens(s, p, m) then None
    else
      var r := FindClose(s, p + 1 + |m|, m, true, p + 2 + |m|);
      assert forall q: nat :: BoundedCloses(s, p, m, q) ==> Closes(s, p + 1 + |m|, q, m, true) && p + 2 + |m| <= q;
      assert r.Some? ==> BoundedCloses(s, p, m, r.value);
      r
  }

  // ---------------------------------------------------------------- line breaks

  /** End of the match of `(?:  |\\)$` at p; the two-space branch is tried first. */
  function BreakAt(s: string, p: nat): (r: Option<nat>)
    ensures r.Some? ==> p < r.value <= |s| && AtLineEnd(s, r.value)
    ensures r.Some? <==> (p + 2 <= |s| && s[p] == ' ' && s[p + 1] == ' ' && AtLineEnd(s, p + 2))
                         || (p < |s| && s[p] == '\\' && AtLineEnd(s, p + 1))
    ensures r.Some? ==> s[p..r.value] in {"  ", "\\"}
  {
    if p + 2 <= |s| && s[p] == ' ' && s[p + 1] == ' ' && AtLineEnd(s, p + 2) then
      assert s[p..p + 2] == "  ";
      Some(p + 2)
    else if p < |s| && s[p] == '\\' && AtLineEnd(s, p + 1) then
      assert s[p..p + 1] == "\\";
      Some(p + 1)
    else None
  }

  // ---------------------------------------------------------------- paragraphs

  /** s[lo..hi] is in the language of `[A-Za-z].*(?:\n[A-Za-z].*)*`: it starts
      with a letter, and its only line terminators are '\n' followed by a letter. */
  predicate ParagraphSpan(s: string, lo: nat, hi: nat)
  {
    lo < hi <= |s| && IsLetter(s[lo])
    && forall k :: lo <= k < hi && IsLineTerminator(s[k]) ==> s[k] == '\n' && k + 1 < hi && IsLetter(s[k + 1])
  }

  /** `(?:\n[A-Za-z].*)` can match once more at line end e. */
  predicate Continues(s: string, e: nat)
  {
    e + 1 < |s| && s[e] == '\n' && IsLetter(s[e + 1])
  }

  /** The greedy repetition of `(?:\n[A-Za-z].*)` from line end e. */
  function ParagraphEnd(s: string, lo: nat, e: nat): (r: nat)
    requires ParagraphSpan(s, lo, e) && AtLineEnd(s, e)
    ensures e <= r && ParagraphSpan(s, lo, r) && AtLineEnd(s, r) && !Continues(s, r)
    decreases |s| - e
  {
    if Continues(s, e) then
      var e' := LineEnd(s, e + 2);
      assert ParagraphSpan(s, lo, e') by {
        forall k | lo <= k < e' && IsLineTerminator(s[k])
          ensures s[k] == '\n' && k + 1 < e' && IsLetter(s[k + 1])
        {
          if k < e { assert ParagraphSpan(s, lo, e); }
        }
      }
      ParagraphEnd(s, lo, e')
    else e
  }

  /** End of the match of `^([A-Za-z].*(?:\n[A-Za-z].*)*)` at p. */
  function ParagraphAt(s: string, p: nat): (r: Option<nat>)
    ensures r.Some? <==> p < |s| && AtLineStart(s, p) && IsLetter(s[p])
    ensures r.Some? ==> ParagraphSpan(s, p, r.value) && AtLineEnd(s, r.value) && !Continues(s, r.value)
  {
    if p < |s| && AtLineStart(s, p) && IsLetter(s[p]) then
      var e := LineEnd(s, p + 1);
      assert ParagraphSpan(s, p, e);
      Some(ParagraphEnd(s, p, e))
    else None
  }

  // ---------------------------------------------------------------- links and images

  /** `\[([^\n]+?)\]\(([^\n]+)\)` matches at b with caption s[b+1..c] and target s[c+2..t]. */
  predicate LinkShape(s: string, b: nat, c: nat, t: nat)
  {
    b + 2 <= c && c + 3 <= t < |s| && s[b] == '[' && s[c] == ']' && s[c + 1] == '(' && s[t] == ')'
    && NoNewline(s, b, t)
  }

  /** The last index k in [lo, hi) with s[k] == ch. */
  function LastIndex(s: string, ch: char, lo: nat, hi: nat): (r: Option<nat>)
    requires lo <= hi <= |s|
    ensures r.Some? ==> lo <= r.value < hi && s[r.value] == ch
    ensures forall k: nat :: lo <= k < hi && (r.None? || r.value < k) ==> s[k] != ch
    decreases hi
  {
    if hi == lo then None
    else if s[hi - 1] == ch then Some(hi - 1)
    else LastIndex(s, ch, lo, hi - 1)
  }

  /** The first c' >= c where `\]\(` stands with at least one character before t. */
  function CaptionEnd(s: string, c: nat, t: nat): (r: Option<nat>)
    requires t <= |s|
    ensures r.Some? ==> c <= r.value && r.value + 3 <= t && s[r.value] == ']' && s[r.value + 1] == '('
    ensures forall c': nat :: c <= c' && c' + 3 <= t && (r.None? || c' < r.value) ==> !(s[c'] == ']' && s[c' + 1] == '(')
    decreases t - c
  {
    if c + 3 > t then None
    else if s[c] == ']' && s[c + 1] == '(' then Some(c)
    else CaptionEnd(s, c + 1, t)
  }

  /** The caption end c and closing parenthesis t the regular expression picks at b:
      the lazy caption makes c the least possible, then the greedy target makes t
      the greatest possible for that c (the last ')' on the line). */
  function BracketAt(s: string, b: nat): (r: Option<(nat, nat)>)
    ensures r.Some? ==> LinkShape(s, b, r.value.0, r.value.1)
    ensures r.Some? ==> forall c: nat, t: nat :: c < r.value.0 ==> !LinkShape(s, b, c, t)
    ensures r.Some? ==> forall t: nat :: r.value.1 < t ==> !LinkShape(s, b, r.value.0, t)
    ensures r.None? ==> forall c: nat, t: nat :: !LinkShape(s, b, c, t)
  {
    if b >= |s| || s[b] != '[' then None
    else
      var l := NewlineFrom(s, b);
      var last := LastIndex(s, ')', b, l);
      assert forall c: nat, t: nat :: LinkShape(s, b, c, t) ==> last.Some? && t <= last.value;
      match last
      case None => None
      case Some(t) =>
        match CaptionEnd(s, b + 2, t)
        case None => None
        case Some(c) =>
          assert NoNewline(s, b, t);
          Some((c, t))
  }

  // ---------------------------------------------------------------- the engine

  /** The match of rule r at position p of s, with the template applied. */
  function MatchAt(r: Rule, s: string, p: nat): (m: Option<Match>)
    ensures m.Some? ==> p < m.value.end <= |s|
  {
    match r
    case Headline(n, suffix) =>
      (match HeadlineAt(s, p, n)
       case None => None
       case Some(st) =>
         var e := LineEnd(s, st);
         Some(Match(e, "<" + HeadlineTag(n) + ">" + s[st..e] + "</" + HeadlineTag(n) + ">" + suffix)))
    case Delimited(mk, tag) =>
      (match DelimitedAt(s, p, mk)
       case None => None
       case Some(q) => Some(Match(q + |mk|, "<" + tag + ">" + s[p + |mk|..q] + "</" + tag + ">")))
    case Bounded(mk, tag) =>
      (match BoundedAt(s, p, mk)
       case None => None
       case Some(q) =>
         Some(Match(q + |mk| + 1, "<" + tag + ">" + [s[p]] + s[p + 1 + |mk|..q] + [s[q + |mk|]] + "</" + tag + ">")))
    case LineBreak =>
      (match BreakAt(s, p)
       case None => None
       case Some(e) => Some(Match(e, "<br>")))
    case Paragraph =>
      (match ParagraphAt(s, p)
       case None => None
       case Some(e) => Some(Match(e, "<p>" + s[p..e] + "</p>")))
    case Link =>
      if p > 0 && p <= |s| && s[p - 1] == '!' then None
      else
        (match BracketAt(s, p)
         case None => None
         case Some((c, t)) => Some(Match(t + 1, "<a href='" + s[c + 2..t] + "'>" + s[p + 1..c] + "</a>")))
    case Image =>
      if p < |s| && s[p] == '!' then
        (match BracketAt(s, p + 1)
         case None => None
         case Some((c, t)) =>
           Some(Match(t + 1, "<img src='" + s[c + 2..t] + "' title='" + s[p + 2..c] + "' style='max-width: 80%' />")))
      else None
    case Escape(ch) =>
      if p + 1 < |s| && s[p] == '\\' && s[p + 1] == ch then Some(Match(p + 2, [ch])) else None
  }

  /** What `replace` does with one stretch of the input: a character no match
      starts at, kept, or a matched span and its replacement. */
  datatype Piece = Kept(c: char) | Hit(src: string, out: string)

  /** The input text the pieces cover. */
  function Sources(ps: seq<Piece>): string
  {
    if ps == [] then [] else (if ps[0].Kept? then [ps[0].c] else ps[0].src) + Sources(ps[1..])
  }

  /** The text the pieces produce. */
  function Outputs(ps: seq<Piece>): string
  {
    if ps == [] then [] else (if ps[0].Kept? then [ps[0].c] else ps[0].out) + Outputs(ps[1..])
  }

  /** The match each position of s would start, as a table; `replace` picks
      from it the leftmost matches that do not overlap. */
  function Matches(r: Rule, s: string): (ms: seq<Option<Match>>)
    ensures |ms| == |s| && Consistent(ms)
    ensures forall p :: 0 <= p < |s| ==> ms[p] == MatchAt(r, s, p)
  {
    seq(|s|, p requires 0 <= p < |s| => MatchAt(r, s, p))
  }

  /** Every match in the table ends after it starts and within the text. */
  predicate Consistent(ms: seq<Option<Match>>)
  {
    forall p :: 0 <= p < |ms| && ms[p].Some? ==> p < ms[p].value.end <= |ms|
  }

  /** The left-to-right scan of a global replace from position i: where a
      match starts it is taken whole and the scan goes on after it, elsewhere
      one character is kept. */
  function Scan(ms: seq<Option<Match>>, s: string, i: nat): seq<Piece>
    requires |ms| == |s| && Consistent(ms) && i <= |s|
    decreases |s| - i
  {
    if i == |s| then []
    else
      match ms[i]
      case Some(m) => [Hit(s[i..m.end], m.out)] + Scan(ms, s, m.end)
      case None => [Kept(s[i])] + Scan(ms, s, i + 1)
  }

  /** `text.replace(rule, template)` */
  function Apply(r: Rule, s: string): string
  {
    Outputs(Scan(Matches(r, s), s, 0))
  }

  /** The rules of a table applied one after the other, each to the previous result. */
  function ApplyAll(rules: seq<Rule>, s: string): string
    decreases |rules|
  {
    if rules == [] then s else ApplyAll(rules[1..], Apply(rules[0], s))
  }

  // ---------------------------------------------------------------- engine lemmas

  lemma {:induction false} SourcesAppend(a: seq<Piece>, b: seq<Piece>)
    ensures Sources(a + b) == Sources(a) + Sources(b)
  {
    if a == [] {
      assert a + b == b;
    } else {
      assert (a + b)[0] == a[0] && (a + b)[1..] == a[1..] + b;
      SourcesAppend(a[1..], b);
      Regroup(Sources(a + b), Sources(a[1..] + b),
              if a[0].Kept? then [a[0].c] else a[0].src, Sources(a[1..]), Sources(b));
    }
  }

  lemma {:induction false} OutputsAppend(a: seq<Piece>, b: seq<Piece>)
    ensures Outputs(a + b) == Outputs(a) + Outputs(b)
  {
    if a == [] {
      assert a + b == b;
    } else {
      assert (a + b)[0] == a[0] && (a + b)[1..] == a[1..] + b;
      OutputsAppend(a[1..], b);
      Regroup(Outputs(a + b), Outputs(a[1..] + b),
              if a[0].Kept? then [a[0].c] else a[0].out, Outputs(a[1..]), Outputs(b));
    }
  }

  /** The pieces of a scan cover the scanned text exactly, in order. */
  lemma {:induction false} ScanCovers(ms: seq<Option<Match>>, s: string, i: nat)
    requires |ms| == |s| && Consistent(ms) && i <= |s|
    ensures Sources(Scan(ms, s, i)) == s[i..]
    decreases |s| - i
  {
    if i < |s| {
      var next := match ms[i] case Some(m) => m.end case None => i + 1;
      var ps := Scan(ms, s, i);
      ScanCovers(ms, s, next);
      assert ps[1..] == Scan(ms, s, next);
      assert s[i..] == s[i..next] + s[next..];
      assert ps[0].Kept? ==> s[i..next] == [s[i]];
    }
  }

  lemma OutputsCons(x: Piece, ps: seq<Piece>)
    ensures Outputs([x] + ps) == (if x.Kept? then [x.c] else x.out) + Outputs(ps)
  {
    assert ([x] + ps)[1..] == ps;
  }

  /** Where the scan goes on after the piece it takes at i. */
  function Next(ms: seq<Option<Match>>, i: nat): nat
    requires i < |ms|
  {
    match ms[i] case Some(m) => m.end case None => i + 1
  }

  /** The k-th piece of the scan from i starts at offset o of the input; a
      kept character is one no match starts at, and a hit is exactly the
      match at o. */
  predicate PieceFits(ms: seq<Option<Match>>, s: string, i: nat, k: nat)
    requires |ms| == |s| && Consistent(ms) && i <= |s|
  {
    var ps := Scan(ms, s, i);
    k < |ps| ==>
      var o := i + |Sources(ps[..k])|;
      o < |s|
      && (ps[k].Kept? ==> ps[k].c == s[o] && ms[o].None?)
      && (ps[k].Hit? ==> ms[o] == Some(Match(o + |ps[k].src|, ps[k].out))
                         && ps[k].src == s[o..o + |ps[k].src|])
  }

  /** Leftmost, non-overlapping matching: every piece of a scan fits. */
  lemma {:induction false} PieceAt(ms: seq<Option<Match>>, s: string, i: nat, k: nat)
    requires |ms| == |s| && Consistent(ms) && i <= |s| && k < |Scan(ms, s, i)|
    ensures PieceFits(ms, s, i, k)
    decreases |s| - i
  {
    if k == 0 {
      PieceHead(ms, s, i);
    } else {
      PieceAt(ms, s, Next(ms, i), k - 1);
      PieceTail(ms, s, i, k);
    }
  }

  /** The first piece fits. */
  lemma PieceHead(ms: seq<Option<Match>>, s: string, i: nat)
    requires |ms| == |s| && Consistent(ms) && i < |s|
    ensures PieceFits(ms, s, i, 0)
  {
    assert Scan(ms, s, i)[..0] == [];
  }

  /** The first piece covers s[i..Next(ms, i)]. */
  lemma FirstPiece(ms: seq<Option<Match>>, s: string, i: nat)
    requires |ms| == |s| && Consistent(ms) && i < |s|
    ensures Scan(ms, s, i)[1..] == Scan(ms, s, Next(ms, i))
    ensures |Sources(Scan(ms, s, i)[..1])| == Next(ms, i) - i
  {
    var ps := Scan(ms, s, i);
    assert ps[..1] == [ps[0]];
    assert Sources(ps[..1]) == Sources([ps[0]]);
  }

  /** A later piece fits if it fits in the scan that follows the first piece. */
  lemma PieceTail(ms: seq<Option<Match>>, s: string, i: nat, k: nat)
    requires |ms| == |s| && Consistent(ms) && i < |s| && 0 < k
    requires PieceFits(ms, s, Next(ms, i), k - 1)
    ensures PieceFits(ms, s, i, k)
  {
    var ps := Scan(ms, s, i);
    if k < |ps| {
      FirstPiece(ms, s, i);
      assert ps[..k] == ps[..1] + ps[1..][..k - 1];
      SourcesAppend(ps[..1], ps[1..][..k - 1]);
    }
  }

  /** src, replaced by out, is the match of r at o. */
  predicate HitFits(r: Rule, s: string, o: nat, src: string, out: string)
  {
    o < |s| && o + |src| <= |s| && src == s[o..o + |src|] && MatchAt(r, s, o) == Some(Match(o + |src|, out))
  }

  /** A hit of the scan of a rule is the rule's match where the hit starts. */
  lemma HitPieceAt(r: Rule, s: string, k: nat)
    requires k < |Scan(Matches(r, s), s, 0)| && Scan(Matches(r, s), s, 0)[k].Hit?
    ensures var ps := Scan(Matches(r, s), s, 0);
            HitFits(r, s, |Sources(ps[..k])|, ps[k].src, ps[k].out)
  {
    var ms := Matches(r, s);
    TableHit(ms, s, k);
    var ps := Scan(ms, s, 0);
    EntryFits(r, s, |Sources(ps[..k])|, ps[k].src, ps[k].out);
  }

  lemma EntryFits(r: Rule, s: string, o: nat, src: string, out: string)
    requires o < |s| && o + |src| <= |s| && src == s[o..o + |src|]
    requires Matches(r, s)[o] == Some(Match(o + |src|, out))
    ensures HitFits(r, s, o, src, out)
  {
  }

  /** A hit of a scan is the table's match where the hit starts. */
  lemma TableHit(ms: seq<Option<Match>>, s: string, k: nat)
    requires |ms| == |s| && Consistent(ms) && k < |Scan(ms, s, 0)| && Scan(ms, s, 0)[k].Hit?
    ensures var ps := Scan(ms, s, 0);
            var o := |Sources(ps[..k])|;
            o < |s| && o + |ps[k].src| <= |s| && ps[k].src == s[o..o + |ps[k].src|]
            && ms[o] == Some(Match(o + |ps[k].src|, ps[k].out))
  {
    PieceAt(ms, s, 0, k);
  }

  /** c is the character at o, where r does not match. */
  predicate KeptFits(r: Rule, s: string, o: nat, c: char)
  {
    o < |s| && c == s[o] && MatchAt(r, s, o).None?
  }

  /** A kept character of the scan of a rule is one where the rule does not match. */
  lemma KeptPieceAt(r: Rule, s: string, k: nat)
    requires k < |Scan(Matches(r, s), s, 0)| && Scan(Matches(r, s), s, 0)[k].Kept?
    ensures var ps := Scan(Matches(r, s), s, 0);
            KeptFits(r, s, |Sources(ps[..k])|, ps[k].c)
  {
    var ms := Matches(r, s);
    PieceAt(ms, s, 0, k);
  }

  /** What `replace` with a global rule computes: the text is cut into pieces
      that cover it in order; each piece is either a character where the rule
      matches nowhere, kept, or the rule's match at the piece's offset,
      replaced; the result is the pieces' outputs in order. */
  lemma ApplyPieces(r: Rule, s: string)
    ensures var ps := Scan(Matches(r, s), s, 0);
            Apply(r, s) == Outputs(ps) && Sources(ps) == s
            && forall k :: 0 <= k < |ps| ==>
                 (ps[k].Kept? ==> KeptFits(r, s, |Sources(ps[..k])|, ps[k].c))
                 && (ps[k].Hit? ==> HitFits(r, s, |Sources(ps[..k])|, ps[k].src, ps[k].out))
  {
    var ps := Scan(Matches(r, s), s, 0);
    ScanCovers(Matches(r, s), s, 0);
    assert s[0..] == s;
    forall k | 0 <= k < |ps|
      ensures (ps[k].Kept? ==> KeptFits(r, s, |Sources(ps[..k])|, ps[k].c))
              && (ps[k].Hit? ==> HitFits(r, s, |Sources(ps[..k])|, ps[k].src, ps[k].out))
    {
      if ps[k].Kept? { KeptPieceAt(r, s, k); } else { HitPieceAt(r, s, k); }
    }
  }

  /** Where no match starts in [i, j), the scan keeps s[i..j] as it is. */
  lemma {:induction false} ScanKeeps(ms: seq<Option<Match>>, s: string, i: nat, j: nat)
    requires |ms| == |s| && Consistent(ms) && i <= j <= |s|
    requires forall p :: i <= p < j ==> ms[p].None?
    ensures Outputs(Scan(ms, s, i)) == s[i..j] + Outputs(Scan(ms, s, j))
    decreases j - i
  {
    if i < j {
      ScanKeeps(ms, s, i + 1, j);
      var rest := Outputs(Scan(ms, s, j));
      KeptStep(ms, s, i, s[i + 1..j] + rest);
      ConsSlice(s, i, j, rest);
    }
  }

  /** One kept character in front of what the scan gives after it. */
  lemma KeptStep(ms: seq<Option<Match>>, s: string, i: nat, rest: string)
    requires |ms| == |s| && Consistent(ms) && i < |s| && ms[i].None?
    requires Outputs(Scan(ms, s, i + 1)) == rest
    ensures Outputs(Scan(ms, s, i)) == [s[i]] + rest
  {
    assert Scan(ms, s, i) == [Kept(s[i])] + Scan(ms, s, i + 1);
    OutputsCons(Kept(s[i]), Scan(ms, s, i + 1));
  }

  lemma ConsSlice(s: string, i: nat, j: nat, x: string)
    requires i < j <= |s|
    ensures [s[i]] + (s[i + 1..j] + x) == s[i..j] + x
  {
    assert s[i..j] == [s[i]] + s[i + 1..j];
  }

  /** Where the rule matches, the scan emits the match's output and resumes at its end. */
  lemma ScanHit(r: Rule, s: string, i: nat)
    requires i < |s| && MatchAt(r, s, i).Some?
    ensures var ms := Matches(r, s);
            Outputs(Scan(ms, s, i)) == MatchAt(r, s, i).value.out + Outputs(Scan(ms, s, MatchAt(r, s, i).value.end))
  {
    var ms := Matches(r, s);
    var m := MatchAt(r, s, i).value;
    assert ms[i] == Some(m);
    OutputsCons(Hit(s[i..m.end], m.out), Scan(ms, s, m.end));
  }

  /** Where the rule does not match, the scan copies the character. */
  lemma ScanMiss(r: Rule, s: string, i: nat)
    requires i < |s| && MatchAt(r, s, i).None?
    ensures var ms := Matches(r, s);
            Outputs(Scan(ms, s, i)) == [s[i]] + Outputs(Scan(ms, s, i + 1))
  {
    var ms := Matches(r, s);
    assert ms[i].None?;
    OutputsCons(Kept(s[i]), Scan(ms, s, i + 1));
  }

  /** A match that spans the whole text is all the rule produces. */
  lemma ApplyWhole(r: Rule, s: string, out: string)
    requires MatchAt(r, s, 0) == Some(Match(|s|, out))
    ensures Apply(r, s) == out
  {
    var ms := Matches(r, s);
    assert ms[0] == Some(Match(|s|, out));
    OutputsCons(Hit(s[0..|s|], out), Scan(ms, s, |s|));
  }

  /** A table of rules each of which leaves s unchanged leaves it unchanged. */
  lemma {:induction false} ApplyAllIdle(rules: seq<Rule>, s: string)
    requires forall r :: r in rules ==> Apply(r, s) == s
    ensures ApplyAll(rules, s) == s
    decreases |rules|
  {
    if rules != [] {
      assert forall r :: r in rules[1..] ==> r in rules;
      ApplyAllIdle(rules[1..], s);
    }
  }

  /** A rule that matches nowhere leaves the text unchanged. */
  lemma ApplyUnmatched(r: Rule, s: string)
    requires forall p: nat :: p < |s| ==> MatchAt(r, s, p).None?
    ensures Apply(r, s) == s
  {
    ScanKeeps(Matches(r, s), s, 0, |s|);
  }

  /** One match at i, none before it and none after it: the replacement of
      that span, with the text around it kept. */
  lemma ApplyOneMatch(r: Rule, s: string, i: nat)
    requires i < |s| && MatchAt(r, s, i).Some?
    requires forall p: nat :: p < i ==> MatchAt(r, s, p).None?
    requires forall p: nat :: MatchAt(r, s, i).value.end <= p < |s| ==> MatchAt(r, s, p).None?
    ensures Apply(r, s) == s[..i] + MatchAt(r, s, i).value.out + s[MatchAt(r, s, i).value.end..]
  {
    var ms := Matches(r, s);
    var m := MatchAt(r, s, i).value;
    KeptAfter(r, s, m.end);
    ScanHit(r, s, i);
    KeptBefore(r, s, i);
    Regroup(Outputs(Scan(ms, s, 0)), Outputs(Scan(ms, s, i)), s[..i], m.out, s[m.end..]);
  }

  /** No match from e on: the scan from e keeps the rest of the text. */
  lemma KeptAfter(r: Rule, s: string, e: nat)
    requires e <= |s|
    requires forall p: nat :: e <= p < |s| ==> MatchAt(r, s, p).None?
    ensures Outputs(Scan(Matches(r, s), s, e)) == s[e..]
  {
    var ms := Matches(r, s);
    assert forall p :: e <= p < |s| ==> ms[p].None?;
    ScanKeeps(ms, s, e, |s|);
    assert Scan(ms, s, |s|) == [];
  }

  /** No match before i: the scan keeps s[..i] and continues at i. */
  lemma KeptBefore(r: Rule, s: string, i: nat)
    requires i <= |s|
    requires forall p: nat :: p < i ==> MatchAt(r, s, p).None?
    ensures Outputs(Scan(Matches(r, s), s, 0)) == s[..i] + Outputs(Scan(Matches(r, s), s, i))
  {
    var ms := Matches(r, s);
    assert forall p :: 0 <= p < i ==> ms[p].None?;
    ScanKeeps(ms, s, 0, i);
    assert s[0..i] == s[..i];
  }
}
