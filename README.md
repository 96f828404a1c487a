# pidimd markdown pipeline and file list, in Dafny

pidimd is a browser markdown editor. This project models two of its parts.

**The markdown parser `parseMD`.** It rewrites the document with a fixed
sequence of global regular-expression replacements. The stages run in this
order:

1. headings `###`, `##` and `#`;
2. emphasis, one rule after the other in table order: bold `**x**`, italic
   `*x*`, the underscore forms `__x__` and `_x_` (which need whitespace on
   both sides), and strikethrough `~~x~~`;
3. line-final breaks;
4. paragraphs;
5. links;
6. images;
7. the removal of the backslash in front of `\*`, `\_` and `\~`.

Each stage reads the previous stage's output.

The model has one replace engine (`Rules`). It reproduces JavaScript's
`String.prototype.replace` with a global regular expression:

- matches are found leftmost first and never overlap;
- lookbehinds and anchors see the text as it was when the rule started.
  A stage with a rule table (headings, emphasis, unescaping) runs its rules
  one after the other, each on the previous rule's output.

Each regular expression has its own hand-written matcher (`Rules.MatchAt`).
The matcher's contract names the span the backtracking order picks:

- lazy captions and contents are as short as possible;
- the greedy link target runs to the last `)` of the line;
- the greedy `\s+` of a heading gives characters back until `.+` can start.

Character classes follow ECMAScript:

- `\s` includes the line terminators;
- `.` and multiline `^`/`$` know four line terminators;
- `[^\n]` excludes only `\n`.

Each stage has its own module of lemmas (`HeadingStage`, `EmphasisStage`,
`LinebreakStage`, `ParagraphStage`, `LinkStage`, `UnescapeStage`).
`Document` follows whole lines through every stage of the pipeline.
`Markdown.ParseMD` runs the stages with loops over the rule tables, as the
source does; it is proved equal to `Markdown.Pipeline`, the composition of
the stages.

**The file list (`Files`).**

- `Filelist` is a class. It holds two parallel sequences, `filenames` and
  `files`, and the name of the open file, `curopen`.
- `Filedotmd` is a class with the fields `name`, `content` and `open`.
- The methods change these fields in place.
- `Valid()` is the class invariant: the sequences are aligned, and every
  name is unique.
- `Tracked()` says that no name is empty and that only the file named
  `curopen` is open. Each method that edits the list states when it keeps
  `Tracked()`. Loading (`constructor`, `AddCached`) promises nothing about
  it: a cached list may mark several files open, or mark open a file whose
  name was taken and so changed.
- A missing (null) argument or field is written as the empty string. In
  every place where the source tests one, it tests truthiness, and there
  `null` and `""` behave the same.

**Where the code and the documentation differ, the code is followed.**

- The heading rules use `\s+`, which also matches a line terminator. So
  `#` followed by a newline and then `x` is a heading `x`.
  `HeadingStage.HeadingShape` allows any run of whitespace, line
  terminators included.
- The underscore rules' boundary characters may also be newlines.
- The link and image rules read the output of the paragraph stage.
- The documentation treats the file list as outside the renderer. Here it
  is modelled from its code.

## Model

| member | source | states |
|---|---|---|
| Rules.HeadlineAt | script.js:11-13 | `^#{n}\s+(.+)$` matches at p exactly when p is a line start with n hashes followed by whitespace and a non-terminator; the text starts at the latest such position (the greedy `\s+`) |
| Rules.BacktrackSpaces | script.js:11-13 | the backtracking of `\s+` ends at the last position where `.+` can start, or nowhere |
| Rules.DelimitedAt | script.js:17-18 | `(?<!\\)M([^\n]*?[^\n\\])M` matches at p exactly when the marker is not preceded by a backslash and some closing marker exists; the content ends at the first one (lazy) |
| Rules.BoundedAt | script.js:19-20 | `(\s)M([^_\n]*?[^\n\\])M(\s)` matches exactly when whitespace precedes the marker and some closing marker followed by whitespace exists; the content ends at the first one |
| Rules.FindClose | script.js:17-21 | the lazy search returns the least admissible closing position, never one past a newline (or an underscore, for the bounded rules) |
| Rules.BreakAt | script.js:30 | the break rule matches exactly at a line-final two spaces or a line-final backslash, and ends at the line end |
| Rules.ParagraphAt | script.js:32 | `^([A-Za-z].*(?:\n[A-Za-z].*)*)` matches exactly at a line start holding a letter; the match is a run of letter-initial lines joined by `\n` that cannot be extended |
| Rules.ParagraphEnd | script.js:32 | the greedy repetition of `\n[A-Za-z].*` stops at a line end that cannot continue the block |
| Rules.BracketAt | script.js:34-35 | `\[([^\n]+?)\]\(([^\n]+)\)` picks the least caption end, then the greatest `)` for it; when it finds none, no bracket shape exists |
| Rules.CaptionEnd | script.js:34-35 | the lazy caption stops at the first `](` that leaves room for a target |
| Rules.LastIndex | script.js:34-35 | the greedy target's `)` is the last one before the line end |
| Rules.MatchAt | script.js:10-35 | every match ends after it starts and within the text |
| Rules.ApplyPieces | script.js:46 | what a global `replace` computes: the input is cut into pieces that cover it in order; each piece is a character where the rule matches nowhere, kept, or the rule's match at the piece's offset, replaced by its template; the result is the pieces' outputs in order |
| Rules.ScanCovers | script.js:46 | the pieces of a global replace cover the input exactly, in order |
| Rules.PieceAt | script.js:46 | leftmost, non-overlapping: each kept character is one no match starts at, and each replaced span is exactly the match at its offset |
| Rules.ScanKeeps | script.js:46 | where no match starts, the replace keeps the text unchanged |
| Rules.ApplyUnmatched | script.js:46 | a rule that matches nowhere is the identity |
| Rules.ApplyWhole | script.js:46 | a match covering the whole text is replaced whole |
| Rules.ApplyOneMatch | script.js:46 | with a single match, the result is the text before it, its replacement, and the text after it |
| Markdown.ParseMD | script.js:43-70 | returns `Pipeline`: the headline table, the emphasis table, the line-break, paragraph, link and image rules, then the escape table, each applied to the previous result |
| Markdown.ReplaceEach | script.js:45-47 | one loop over a rule table: the result is every rule of the table applied in order, each to the previous rule's output |
| Rules.ApplyAllIdle | script.js:45-47 | a rule table whose every rule is idle on s leaves s unchanged |
| HeadingStage.HeadingsSteps | script.js:45-47 | the heading stage applies the h3, then h2, then h1 rule |
| HeadingStage.OwnLevelMatches | script.js:11-13 | a line of n hashes, a non-empty run of whitespace and text is one match of the level-n rule, giving `<hN>text</hN>` and its suffix: the greedy `\s+` takes the whole run |
| HeadingStage.OtherLevelIdle | script.js:11-13 | on such a line, the rule of every other level matches nowhere |
| HeadingStage.HtmlIdle | script.js:45-47 | a produced heading is left alone by the later heading rules |
| HeadingStage.HeadingLine | script.js:11-13 | a line with exactly one to three hashes, a non-empty run of whitespace and text becomes `<hN>text</hN>`, with `<hr>` after `<h1>` |
| HeadingStage.FourHashesNoHeadline | script.js:11-13 | no heading rule starts a match at a run of four hashes |
| HeadingStage.NoHashLineUntouched | script.js:45-47 | text in which no line opens with `#` passes the heading stage unchanged |
| HeadingStage.FourHashLineUntouched | script.js:11-13 | a single line opening with four or more hashes passes the heading stage unchanged |
| EmphasisStage.EmphasisSteps | script.js:50-52 | the emphasis stage applies `**`, `*`, `__`, `_`, `~~` in table order |
| EmphasisStage.DelimitedIdle | script.js:17-18 | a star or tilde rule whose marker does not occur leaves the text alone |
| EmphasisStage.BoundedIdle | script.js:19-20 | an underscore rule whose marker does not occur leaves the text alone |
| EmphasisStage.BoundedNeedsSpace | script.js:19-20 | without whitespace (as in `x__a__y`), the underscore rules change nothing |
| EmphasisStage.DelimitedSpan | script.js:17-21 | `M c M`, with one-line content that does not end in a backslash and does not contain the marker's first character, becomes `<tag>c</tag>` |
| EmphasisStage.BoundedSpan | script.js:19-20 | for an underscore marker M (`_` or `__`), `w M c M w'` with whitespace w, w' and one-line content c holding no `_` and not ending in a backslash becomes `<tag>` w c w' `</tag>`: each boundary character is kept once, inside the tag |
| EmphasisStage.BoldSpan | script.js:17 | through the whole stage, `**c**` becomes `<b>c</b>` |
| EmphasisStage.ItalicRule | script.js:17-18 | the bold rule leaves `*c*` alone, and the italic rule wraps it |
| EmphasisStage.ItalicSpan | script.js:18 | through the whole stage, `*c*` becomes `<i>c</i>` |
| EmphasisStage.StrikeSpan | script.js:21 | through the whole stage, `~~c~~` becomes `<s>c</s>` |
| EmphasisStage.UnderscoreBoldSpan | script.js:19 | through the whole stage, `w__c__w'` becomes `<b>` w c w' `</b>` |
| EmphasisStage.UnderscoreItalicSkipsBold | script.js:19 | the `__` rule leaves `w_c_w'` (single underscores between whitespace) unchanged |
| EmphasisStage.UnderscoreItalicRule | script.js:20 | the `_` rule turns `w_c_w'` into `<i>` w c w' `</i>` |
| EmphasisStage.UnderscoreItalicSpan | script.js:20 | through the whole stage, `w_c_w'` becomes `<i>` w c w' `</i>` |
| EmphasisStage.NoDoubleUnderscore | script.js:19-20 | single underscores around unmarked content never form `__` |
| EmphasisStage.UnmarkedIdle | script.js:17-21 | text without `*`, `_` and `~` passes the stage unchanged |
| EmphasisStage.EscapedMarkersUntouched | script.js:17-21 | when every marker character follows a backslash, no emphasis rule fires |
| LinebreakStage.BreakInLine | script.js:30 | inside a line, a break matches exactly where the rest of the line is two spaces or one backslash, and runs to the line end |
| LinebreakStage.LineBreaksByLines | script.js:30 | the stage equals the per-line reference `ByLines`: each line's final two spaces, or else its final backslash, become `<br>`, and every terminator is kept |
| LinebreakStage.ScanByLines | script.js:30 | the global replace from any line start equals the per-line reference on the rest of the text |
| LinebreakStage.BreakLineOneLine | script.js:30 | a broken line is still one line |
| LinebreakStage.OneLineUnbroken | script.js:30 | a single line that ends in neither a space nor a backslash passes the stage unchanged |
| LinebreakStage.LineBreaksKeepNewlines | script.js:30 | the stage keeps the sequence of line terminators, so the number of `\n` is unchanged |
| ParagraphStage.ParagraphPieces | script.js:32 | the stage's pieces cover its input; each kept character does not start a letter-initial line; each replaced span is a maximal block at a line start, output as `<p>` span `</p>`; deleting the inserted tags gives back the input |
| ParagraphStage.ParagraphMiss | script.js:32 | the rule does not match exactly where the position is not a line start holding a letter |
| ParagraphStage.MatchRunsToSpanEnd | script.js:32 | a match starting in a block runs at least to the block's end |
| ParagraphStage.BlockWrapped | script.js:32 | a block of letter-initial lines joined by `\n` is wrapped whole, once |
| ParagraphStage.TwoLinesOneParagraph | script.js:32 | two letter-initial lines form one paragraph |
| ParagraphStage.BlockBeforeBlank | script.js:32 | a blank line ends the block before it |
| ParagraphStage.BlankLineSeparates | script.js:32 | two blocks separated by a blank line become two paragraphs, with the blank line kept between them |
| ParagraphStage.NoLetterLineUntouched | script.js:32 | text in which no line starts with a letter passes unchanged |
| LinkStage.BracketPicks | script.js:34 | for a link shape at b whose caption holds no `]` and with no later `)` on the target's line, the caption ends at that `](` and the target at that `)` |
| LinkStage.LinkBracket | script.js:34 | `[c](u)` followed by a tail, with a one-line caption holding no `]`, a one-line target and no `)` on the tail's first line, is bracketed by its own `](` and its own `)` |
| LinkStage.LinkMatch | script.js:34 | under LinkBracket's conditions, a link not preceded by `!` is one match producing `<a href='u'>c</a>`; the target may hold `)` and `](` |
| LinkStage.LinksOne | script.js:34 | a line with one link, no `[` before it and no `)` after it, gets just that link replaced by an anchor |
| LinkStage.LinkHitsNotAfterBang | script.js:34 | for every text, each replaced stretch of the link rule (a `HitFits` piece, which `Rules.ApplyPieces` makes of every hit) starts at a `[` that opens the text or follows a character other than `!` |
| LinkStage.LinksSkipImage | script.js:34 | a line holding one image `![c](u)`, with no `[` before it or in c and u, no `]` in c and no `)` after it, passes the link stage unchanged |
| LinkStage.ImageHitsAtBang | script.js:35 | for every text, each replaced stretch of the image rule (a `HitFits` piece) starts at `!` directly followed by `[` |
| LinkStage.ImageMatchAt | script.js:35 | at `!` followed by `[c](u)` and a tail, under LinkBracket's conditions, the image rule produces `<img src='u' title='c' style='max-width: 80%' />` |
| LinkStage.ImagesOne | script.js:35 | a line with one image, no `!` before it and no `)` after it, gets just that image replaced |
| LinkStage.NoBracketIdle | script.js:34-35 | text without `[` passes both the link and the image stage unchanged |
| LinkStage.ImageThroughLinks | script.js:59-62 | through the link and then the image stage, a line holding one image `![c](u)` under LinksSkipImage's conditions and with no `!` before it becomes that image, never an anchor |
| UnescapeStage.ScanEscape | script.js:25-27 | one escape rule's replace equals the one-pass reference `Unescaped` for its marker |
| UnescapeStage.ApplyEscape | script.js:25-27 | each escape rule deletes exactly the backslashes that directly precede its marker |
| UnescapeStage.UnescapedTwice | script.js:66-68 | two passes over disjoint marker sets equal one pass over their union |
| UnescapeStage.UnescapeReference | script.js:66-68 | the three passes delete exactly the backslashes that directly precede `*`, `_` or `~` |
| UnescapeStage.UnescapeBounds | script.js:66-68 | text without a backslash passes unchanged, and no output is longer than its input |
| Document.LateStagesIdle | script.js:59-68 | text without `[` and without a backslash passes the link, image and unescape stages unchanged |
| Document.TaggedLineStays | script.js:50-68 | a plain line (no `*`, `_`, `~`, backslash or `[`) that opens with `<` and ends with `>` passes every stage after the headings unchanged |
| Document.HeadingDocument | script.js:43-70 | through the whole of `parseMD`, a line of one to three hashes, a run of whitespace and plain text becomes exactly `<hN>text</hN>`, with `<hr>` after `<h1>`: no later stage touches the heading |
| Document.ParagraphDocument | script.js:43-70 | through the whole of `parseMD`, a plain line that opens with a letter and does not end in a space becomes exactly `<p>` line `</p>` |
| Files.Filedotmd.constructor | script.js:127-131 | a new file holds the given name, content and open flag |
| Files.Filedotmd.SetName | script.js:150-152 | sets the name and nothing else |
| Files.Filedotmd.SetContent | script.js:157-159 | sets the content and nothing else |
| Files.Filedotmd.SetOpen | script.js:164-166 | sets the open flag and nothing else |
| Files.IndexOf | script.js:240-243 | `indexOf`: -1 exactly when the name is absent; otherwise the first index holding it |
| Files.IndexOfDistinct | script.js:250-252 | in a list without repeated names, the index found is the entry's own position |
| Files.MaxLen | script.js:214-220 | no name is longer than the bound the free-name loop counts down to |
| Files.FreeNameFrom | script.js:216-218 | the loop's result is not taken, extends its start and adds only `1`s |
| Files.ChosenNameFresh | script.js:195-196 | `newFile`'s name is never taken and never empty; it is the requested name exactly when that is given and free |
| Files.NamesAfterDistinct | script.js:174-187 | loading cached entries adds one distinct name per entry and keeps the earlier names |
| Files.Filelist.constructor | script.js:174-187 | the list holds the cached entries' chosen names in order, with their open flags and contents; `curopen` is the cached name of the last open entry |
| Files.Filelist.AddCached | script.js:182-186 | one step of loading: `newFile` for the entry, then `curopen` set to its cached name when it is open |
| Files.Filelist.NameFreeAgrees | script.js:207-209 | `nameFree` holds exactly when `getFile` gives null and `indexOf` gives -1 |
| Files.Filelist.ChooseName | script.js:196 | picks `ChosenName`: the requested name when it is given and `nameFree`, else `getFreeName`'s name |
| Files.Filelist.GetFreeName | script.js:214-220 | returns `FreeName`: the first of `file<n+1>`, `file<n+1>1`, … that is not taken; the loop terminates |
| Files.Filelist.NewFile | script.js:195-201 | appends one file to both sequences, under the chosen name and with the chosen content (default `# name` + newline + `Content...`); keeps `Valid`, and keeps `Tracked` for a closed file |
| Files.Filelist.GetFile | script.js:240-243 | null exactly when no file has that name; otherwise a listed file with that name |
| Files.Filelist.RenameFile | script.js:250-261 | false, changing nothing, when oldname is absent or newname taken; otherwise the entry is renamed in place in both sequences and `curopen` becomes newname; `Tracked` is kept when the open file is renamed to a non-empty name |
| Files.Filelist.CloseCurrent | script.js:269-272 | the file named by a set `curopen` is closed, every other open flag and every content is unchanged; when only the `curopen` file was open, no file is open afterwards |
| Files.Filelist.OpenFile | script.js:266-278 | for a listed file: it becomes open and `curopen`, the file named by a set `curopen` is closed, and every other flag is unchanged; for an unlisted one nothing changes; keeps `Valid` and `Tracked` |
| Files.Filelist.DeleteFile | script.js:294-306 | for a listed file: it leaves both sequences and the first remaining file is opened, or, when none remains, `example` holding the welcome text is created and opened; every remaining file keeps its content, and every remaining file but the first keeps its open flag unless it is the file named by `curopen`, which is closed; for an unlisted one nothing changes; keeps `Valid` and `Tracked` |
| Files.Filelist.OpenFirst | script.js:299-304 | after the removal: the first file is opened, or `example` is created and opened; every other file keeps its content, and its open flag unless it is the file named by `curopen`, which is closed |
| Files.Filelist.RemoveKeepsValid | script.js:296-298 | splicing one entry out of both sequences keeps them aligned, unique and tracked |

## Left out

- The editor's user interface is not modelled. This covers the DOM handles, `render`, `populateSidebar`, the event listeners, the sound and the confirmation dialog. None of it holds logic beyond the parser and the file list.
- `openFile` writes to the editor textarea and calls `render`. The model keeps only the open flags and `curopen`.
- `saveFile` is not modelled as its own method. It reads the textarea; `Filedotmd.SetContent` models its only state change.
- `getName`, `getContent`, `getFilenames` and `getFiles` are plain getters. The model reads the fields directly.
- Persistence through `localStorage` and JSON is not modelled. `Filelist.constructor` takes the decoded cached entries as a parameter.
- `welcometext` and `tutorial` are data. `DeleteFile` takes the welcome text as a parameter.
- `wrapSelection` is not modelled. It reads the textarea selection and only concatenates strings.
- Strings are sequences of Unicode characters, not UTF-16 code units. No rule treats the two halves of a surrogate pair differently from one character.
- HTML escaping and well-nested output are not modelled. The source does neither.
- Markdown.ParseMD: its contract ties it to `Pipeline`. Whole-pipeline lemmas (`Document`) cover one heading line and one paragraph line of plain text; other documents are covered stage by stage, for the stage inputs named in each lemma.
- HeadingStage.HeadingLine: stated for one heading line (the whitespace run after the hashes may span lines). Documents with further lines follow from the engine lemmas but are not stated.
- EmphasisStage.BoldSpan, ItalicSpan, StrikeSpan, UnderscoreBoldSpan, UnderscoreItalicSpan: stated for one span whose content holds no marker character. Mixed and nested markers are covered only by the matcher contracts in `Rules`.
- ParagraphStage.BlankLineSeparates: stated for two blocks. Longer documents are covered piece by piece by `ParagraphPieces`.
- LinkStage.LinksOne, LinkStage.ImagesOne: stated for a caption without `]` and a line holding one link. A caption that contains `]` is covered by the contract of `Rules.BracketAt`.
- LinkStage.BracketPicks: stated for a caption holding no `]` and no `)` after the target on its line. In general the caption ends at the first `](` and the target at the last `)` of the line, as the contract of `Rules.BracketAt` states for every text.
- LinkStage.LinkBracket: stated for a caption holding no `]` and a tail with no `)` on its first line. A caption holding `](` ends at that first `](` (for `[a](b](u)` the caption is `a`), and a later `)` on the line lengthens the target (`[c](u) (x)` gives the target `u) (x`). `Rules.BracketAt` states both for every text.
- LinkStage.LinkMatch: stated under LinkBracket's conditions. Otherwise the caption and target are the ones `Rules.BracketAt` picks, as in `Rules.MatchAt`; for `[c](u) (x)` the anchor is `<a href='u) (x'>c</a>`.
- LinkStage.ImageMatchAt: stated under LinkBracket's conditions. Otherwise the title and source are the ones `Rules.BracketAt` picks after the `!`.
- LinkStage.LinksSkipImage: stated for a line holding one image, with no `[` in the text before it or in its caption and target and no `)` after it. For every text, `LinkStage.LinkHitsNotAfterBang` states that no link replacement starts at a `[` after a `!`.
- LinkStage.ImageThroughLinks: stated under LinksSkipImage's conditions and with no `!` before the image. Other documents are covered by `LinkHitsNotAfterBang` and `ImageHitsAtBang`, which hold for every text.
- Files.Filelist.RenameFile: `Tracked` is promised only when the open file is renamed to a non-empty name. Renaming another file moves `curopen` away from the open one, and renaming to the empty name makes `curopen` read as unset. The editor only ever renames the open file.
