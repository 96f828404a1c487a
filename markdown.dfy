/** `parseMD`: the markdown dialect's rule tables applied in their fixed order,
    each stage to the previous stage's output. */
module Markdown {
  import opened Rules

  /** Lines opening with one to three '#' become headings (h3 rule first). */
  function Headings(s: string): string
  {
    ApplyAll(HeadlineRules, s)
  }

  /** Bold, italic, underscore forms and strikethrough, in table order. */
  function Emphasis(s: string): string
  {
    ApplyAll(EmphasisRules, s)
  }

  /** Line-final two spaces or backslash become `<br>`. */
  function LineBreaks(s: string): string
  {
    Apply(LineBreak, s)
  }

  /** Runs of letter-initial lines are wrapped in `<p>`. */
  function Paragraphs(s: string): string
  {
    Apply(Paragraph, s)
  }

  /** `[caption](target)` not preceded by '!' becomes an anchor. */
  function Links(s: string): string
  {
    Apply(Link, s)
  }

  /** `![caption](target)` becomes an image. */
  function Images(s: string): string
  {
    Apply(Image, s)
  }

  /** Backslashes before '*', '_' and '~' are dropped, one marker at a time. */
  function Unescape(s: string): string
  {
    ApplyAll(EscapeRules, s)
  }

  /** The whole pipeline: each stage applied to the previous stage's output. */
  function Pipeline(s: string): string
  {
    Unescape(Images(Links(Paragraphs(LineBreaks(Emphasis(Headings(s)))))))
  }

  /** `parseMD`: the rule tables run by loops, the single rules by one
      `replace` each, the text updated after every rule. */
  method ParseMD(text: string) returns (html: string)
    ensures html == Pipeline(text)
  {
    html := ReplaceEach(HeadlineRules, text);
    html := ReplaceEach(EmphasisRules, html);
    html := Apply(LineBreak, html);
    html := Apply(Paragraph, html);
    html := Apply(Link, html);
    html := Apply(Image, html);
    html := ReplaceEach(EscapeRules, html);
  }

  /** One `for` loop of `parseMD` over a rule table: every rule of the table,
      in order, replaces its matches in the text left by the previous one. */
  method ReplaceEach(rules: seq<Rule>, text: string) returns (r: string)
    ensures r == ApplyAll(rules, text)
  {
    r := text;
    for i := 0 to |rules|
      invariant ApplyAll(rules[i..], r) == ApplyAll(rules, text)
    {
      assert rules[i..][0] == rules[i] && rules[i..][1..] == rules[i + 1..];
      r := Apply(rules[i], r);
    }
    assert rules[|rules|..] == [];
  }
}
