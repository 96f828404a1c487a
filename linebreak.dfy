/** The line-break stage, proved equal to a line-by-line reference. */
module LinebreakStage {
  import opened Text
  import opened Rules
  import opened Markdown

  /** What the stage does to one line (without its terminator): a final two
      spaces, or else a final backslash, become `<br>`. */
  function BreakLine(line: string): string
  {
    if |line| >= 2 && line[|line| - 2] == ' ' && line[|line| - 1] == ' ' then line[..|line| - 2] + "<br>"
    else if |line| >= 1 && line[|line| - 1] == '\\' then line[..|line| - 1] + "<br>"
    else line
  }

  /** Reference: split s at its line terminators, break each line, keep every terminator. */
  function ByLines(s: string): string
  {
    ByLinesFrom(s, 0)
  }

  /** The reference on the text from offset i on. */
  function ByLinesFrom(s: string, i: nat): string
    requires i <= |s|
    decreases |s| - i
  {
    var e := LineEnd(s, i);
    if e == |s| then BreakLine(s[i..]) else BreakLine(s[i..e]) + [s[e]] + ByLinesFrom(s, e + 1)
  }

  /** Prepending a character to a line that is not itself a whole match. */
  lemma BreakLineCons(c: char, line: string)
    requires [c] + line != "  " && [c] + line != "\\"
    ensures BreakLine([c] + line) == [c] + BreakLine(line)
  {
    var l := [c] + line;
    if |l| >= 2 && l[|l| - 2] == ' ' && l[|l| - 1] == ' ' {
      SpacesCons(c, line);
    } else if |l| >= 1 && l[|l| - 1] == '\\' {
      BackslashCons(c, line);
    } else {
      PlainCons(c, line);
    }
  }

  lemma SpacesCons(c: char, line: string)
    requires |line| >= 2 && line[|line| - 2] == ' ' && line[|line| - 1] == ' '
    ensures BreakLine([c] + line) == [c] + BreakLine(line)
  {
    var l := [c] + line;
    assert l[|l| - 2] == line[|line| - 2];
    assert l[..|l| - 2] == [c] + line[..|line| - 2];
  }

  lemma BackslashCons(c: char, line: string)
    requires [c] + line != "\\"
    requires |line| >= 1 && line[|line| - 1] == '\\'
    ensures BreakLine([c] + line) == [c] + BreakLine(line)
  {
    var l := [c] + line;
    assert l[..|l| - 1] == [c] + line[..|line| - 1];
  }

  lemma PlainCons(c: char, line: string)
    requires !(|line| >= 1 && ([c] + line)[|line| - 1] == ' ' && line[|line| - 1] == ' ')
    requires !(|line| >= 1 && line[|line| - 1] == '\\')
    requires !(line == [] && c == '\\')
    ensures BreakLine([c] + line) == [c] + BreakLine(line)
  {
  }

  /** Where a break matches, the scan emits `<br>` and resumes after it. */
  lemma ScanAtBreak(s: string, i: nat)
    requires i <= |s| && BreakAt(s, i).Some?
    ensures var ms := Matches(LineBreak, s);
            Outputs(Scan(ms, s, i)) == "<br>" + Outputs(Scan(ms, s, BreakAt(s, i).value))
  {
    ScanHit(LineBreak, s, i);
  }

  /** Where no break matches, the scan copies the character. */
  lemma ScanAtPlain(s: string, i: nat)
    requires i < |s| && BreakAt(s, i).None?
    ensures var ms := Matches(LineBreak, s);
            Outputs(Scan(ms, s, i)) == [s[i]] + Outputs(Scan(ms, s, i + 1))
  {
    ScanMiss(LineBreak, s, i);
  }

  /** Inside a line, a break matches exactly where the rest of the line is
      two spaces or one backslash, and then runs to the line end. */
  lemma BreakInLine(s: string, i: nat)
    requires i <= |s| && i < LineEnd(s, i)
    ensures var j := LineEnd(s, i);
            (BreakAt(s, i).Some? <==> (i + 2 == j && s[i] == ' ' && s[i + 1] == ' ') || (i + 1 == j && s[i] == '\\'))
            && (BreakAt(s, i).Some? ==> BreakAt(s, i).value == j)
  {
    var j := LineEnd(s, i);
    if BreakAt(s, i).Some? {
      var e := BreakAt(s, i).value;
      assert OneLine(s, i, e - 1);
      LineEndUnique(s, i, e);
    }
  }

  /** BreakLineCons on a slice of s. */
  lemma BreakLineSlice(s: string, i: nat, j: nat)
    requires i < j <= |s|
    requires !(i + 2 == j && s[i] == ' ' && s[i + 1] == ' ') && !(i + 1 == j && s[i] == '\\')
    ensures BreakLine(s[i..j]) == [s[i]] + BreakLine(s[i + 1..j])
  {
    assert s[i..j] == [s[i]] + s[i + 1..j];
    BreakLineCons(s[i], s[i + 1..j]);
  }

  /** The scan of one line, up to its terminator, is BreakLine of that line. */
  lemma {:induction false} ScanLine(s: string, i: nat)
    requires i <= |s|
    ensures var ms := Matches(LineBreak, s);
            Outputs(Scan(ms, s, i)) == BreakLine(s[i..LineEnd(s, i)]) + Outputs(Scan(ms, s, LineEnd(s, i)))
    decreases |s| - i
  {
    var j := LineEnd(s, i);
    if i == j {
      assert s[i..j] == [];
    } else if BreakAt(s, i).Some? {
      ScanLineBreak(s, i);
    } else {
      assert LineEnd(s, i + 1) == j;
      ScanLine(s, i + 1);
      ScanLinePlain(s, i);
    }
  }

  /** A break at i takes the rest of the line, which BreakLine replaces too. */
  lemma ScanLineBreak(s: string, i: nat)
    requires i <= |s| && i < LineEnd(s, i) && BreakAt(s, i).Some?
    ensures var ms := Matches(LineBreak, s);
            Outputs(Scan(ms, s, i)) == BreakLine(s[i..LineEnd(s, i)]) + Outputs(Scan(ms, s, LineEnd(s, i)))
  {
    BreakInLine(s, i);
    BreakLineWhole(s, i, LineEnd(s, i));
    ScanAtBreak(s, i);
  }

  /** A line that is only two spaces or only a backslash breaks to `<br>`. */
  lemma BreakLineWhole(s: string, i: nat, j: nat)
    requires i <= j <= |s|
    requires (i + 2 == j && s[i] == ' ' && s[i + 1] == ' ') || (i + 1 == j && s[i] == '\\')
    ensures BreakLine(s[i..j]) == "<br>"
  {
    var line := s[i..j];
    assert line[0] == s[i];
    if i + 2 == j {
      assert line[1] == s[i + 1];
    }
    assert line[..0] == [];
  }

  /** A kept character in front of the scan of the rest of its line. */
  lemma ScanLinePlain(s: string, i: nat)
    requires i < |s| && i < LineEnd(s, i) && BreakAt(s, i).None? && LineEnd(s, i + 1) == LineEnd(s, i)
    requires var ms := Matches(LineBreak, s);
             Outputs(Scan(ms, s, i + 1)) == BreakLine(s[i + 1..LineEnd(s, i)]) + Outputs(Scan(ms, s, LineEnd(s, i)))
    ensures var ms := Matches(LineBreak, s);
            Outputs(Scan(ms, s, i)) == BreakLine(s[i..LineEnd(s, i)]) + Outputs(Scan(ms, s, LineEnd(s, i)))
  {
    var ms := Matches(LineBreak, s);
    var j := LineEnd(s, i);
    BreakInLine(s, i);
    ScanAtPlain(s, i);
    BreakLineSlice(s, i, j);
    Regroup(Outputs(Scan(ms, s, i)), Outputs(Scan(ms, s, i + 1)), [s[i]],
            BreakLine(s[i + 1..j]), Outputs(Scan(ms, s, j)));
  }

  /** A line break never starts on a line terminator. */
  lemma NoBreakAtTerminator(s: string, j: nat)
    requires j < |s| && IsLineTerminator(s[j])
    ensures MatchAt(LineBreak, s, j).None?
  {
  }

  /** One unfolding of the reference at the end j of the line starting at i. */
  lemma ByLinesFromStep(s: string, i: nat, j: nat)
    requires i <= j < |s| && LineEnd(s, i) == j
    ensures ByLinesFrom(s, i) == BreakLine(s[i..j]) + [s[j]] + ByLinesFrom(s, j + 1)
  {
  }

  /** The scan copies a line terminator. */
  lemma KeepTerminator(s: string, j: nat)
    requires j < |s| && IsLineTerminator(s[j])
    ensures var ms := Matches(LineBreak, s);
            Outputs(Scan(ms, s, j)) == [s[j]] + Outputs(Scan(ms, s, j + 1))
  {
    NoBreakAtTerminator(s, j);
    ScanAtPlain(s, j);
  }

  /** One line and its terminator: the scan from i is the broken line, the
      terminator, and whatever the scan gives after the terminator. */
  lemma ScanLineStep(s: string, i: nat, j: nat, rest: string)
    requires i <= j < |s| && LineEnd(s, i) == j
    requires Outputs(Scan(Matches(LineBreak, s), s, j + 1)) == rest
    ensures Outputs(Scan(Matches(LineBreak, s), s, i)) == BreakLine(s[i..j]) + [s[j]] + rest
  {
    var ms := Matches(LineBreak, s);
    ScanLine(s, i);
    KeepTerminator(s, j);
    Regroup(Outputs(Scan(ms, s, i)), Outputs(Scan(ms, s, j)), BreakLine(s[i..j]), [s[j]], rest);
  }

  /** From offset i on, the scan of the stage produces the reference. */
  predicate ScanAgrees(s: string, i: nat)
    requires i <= |s|
  {
    Outputs(Scan(Matches(LineBreak, s), s, i)) == ByLinesFrom(s, i)
  }

  lemma {:induction false} ScanByLines(s: string, i: nat)
    requires i <= |s|
    ensures ScanAgrees(s, i)
    decreases |s| - i, 1
  {
    AgreesFromNextLine(s, i, LineEnd(s, i));
  }

  /** The line from i ends at j: the scan agrees with the reference from i
      on, given that (by induction) it does from the next line on. */
  lemma {:induction false} AgreesFromNextLine(s: string, i: nat, j: nat)
    requires i <= |s| && j == LineEnd(s, i)
    ensures ScanAgrees(s, i)
    decreases |s| - i, 0
  {
    if j < |s| {
      ScanByLines(s, j + 1);
      ScanMatchesStep(s, i, j);
    } else {
      ScanLastLine(s, i);
    }
  }

  /** The scan agrees with the reference from i once it does after the first line end. */
  lemma ScanMatchesStep(s: string, i: nat, j: nat)
    requires i <= j < |s| && LineEnd(s, i) == j && ScanAgrees(s, j + 1)
    ensures ScanAgrees(s, i)
  {
    ScanLineStep(s, i, j, ByLinesFrom(s, j + 1));
    ByLinesFromStep(s, i, j);
  }

  /** On the last line the scan is the reference. */
  lemma ScanLastLine(s: string, i: nat)
    requires i <= |s| && LineEnd(s, i) == |s|
    ensures ScanAgrees(s, i)
  {
    ScanLine(s, i);
    assert s[i..] == s[i..|s|];
  }

  /** The stage is the line-by-line reference. */
  lemma LineBreaksByLines(s: string)
    ensures LineBreaks(s) == ByLines(s)
  {
    ScanByLines(s, 0);
    assert s[0..] == s;
  }

  /** A broken line is still one line. */
  lemma BreakLineOneLine(line: string)
    requires OneLine(line, 0, |line|)
    ensures OneLine(BreakLine(line), 0, |BreakLine(line)|)
  {
  }

  /** A line without terminators, then a terminator: only that terminator counts. */
  lemma LineThenRest(line: string, c: char, rest: string)
    requires OneLine(line, 0, |line|) && IsLineTerminator(c)
    ensures Terminators(line + [c] + rest) == [c] + Terminators(rest)
  {
    TerminatorsAppend(line + [c], rest);
    TerminatorsAppend(line, [c]);
    TerminatorsOfLine(line);
    assert [c][1..] == [];
  }

  /** The line of s from i to its end has no terminator. */
  lemma LineSlice(s: string, i: nat)
    requires i <= |s|
    ensures OneLine(s[i..LineEnd(s, i)], 0, LineEnd(s, i) - i)
  {
    var e := LineEnd(s, i);
    forall k | 0 <= k < e - i ensures !IsLineTerminator(s[i..e][k]) {
      assert s[i..e][k] == s[i + k];
    }
  }

  /** The input from i splits at its first line end. */
  lemma InputSplit(s: string, i: nat)
    requires i <= |s| && LineEnd(s, i) < |s|
    ensures Terminators(s[i..]) == [s[LineEnd(s, i)]] + Terminators(s[LineEnd(s, i) + 1..])
  {
    var e := LineEnd(s, i);
    LineSlice(s, i);
    assert s[i..] == s[i..e] + [s[e]] + s[e + 1..];
    LineThenRest(s[i..e], s[e], s[e + 1..]);
  }

  /** The reference's output from i splits at the same line end. */
  lemma OutputSplit(s: string, i: nat)
    requires i <= |s| && LineEnd(s, i) < |s|
    ensures Terminators(ByLinesFrom(s, i)) == [s[LineEnd(s, i)]] + Terminators(ByLinesFrom(s, LineEnd(s, i) + 1))
  {
    var e := LineEnd(s, i);
    LineSlice(s, i);
    BreakLineOneLine(s[i..e]);
    LineThenRest(BreakLine(s[i..e]), s[e], ByLinesFrom(s, e + 1));
  }

  /** The last line has no terminator, before or after the stage. */
  lemma LastLineTerminators(s: string, i: nat)
    requires i <= |s| && LineEnd(s, i) == |s|
    ensures Terminators(ByLinesFrom(s, i)) == [] == Terminators(s[i..])
  {
    LineSlice(s, i);
    assert s[i..|s|] == s[i..];
    BreakLineOneLine(s[i..]);
    TerminatorsOfLine(s[i..]);
    TerminatorsOfLine(BreakLine(s[i..]));
  }

  /** From offset i on, the reference keeps the line terminators. */
  predicate TerminatorsKept(s: string, i: nat)
    requires i <= |s|
  {
    Terminators(ByLinesFrom(s, i)) == Terminators(s[i..])
  }

  /** One line: the reference keeps the terminators from i on once it keeps
      those after the first line end. */
  lemma TerminatorsStep(s: string, i: nat)
    requires i <= |s| && LineEnd(s, i) < |s|
    requires Terminators(ByLinesFrom(s, LineEnd(s, i) + 1)) == Terminators(s[LineEnd(s, i) + 1..])
    ensures Terminators(ByLinesFrom(s, i)) == Terminators(s[i..])
  {
    InputSplit(s, i);
    OutputSplit(s, i);
  }

  /** The reference keeps every line terminator, in order. */
  lemma {:induction false} ByLinesFromTerminators(s: string, i: nat)
    requires i <= |s|
    ensures TerminatorsKept(s, i)
    decreases |s| - i
  {
    var e := LineEnd(s, i);
    if e < |s| {
      ByLinesFromTerminators(s, e + 1);
    }
    TerminatorsFromNextLine(s, i, e);
  }

  /** The terminators from i on are kept once those after the line end e
      are, if e is not the end of the text. */
  lemma TerminatorsFromNextLine(s: string, i: nat, e: nat)
    requires i <= |s| && e == LineEnd(s, i) && (e < |s| ==> TerminatorsKept(s, e + 1))
    ensures TerminatorsKept(s, i)
  {
    if e == |s| {
      LastLineTerminators(s, i);
    } else {
      TerminatorsStep(s, i);
    }
  }

  /** Every line terminator, and so every newline, is kept by the stage. */
  lemma LineBreaksKeepNewlines(s: string)
    ensures Terminators(LineBreaks(s)) == Terminators(s)
    ensures Count(LineBreaks(s), '\n') == Count(s, '\n')
  {
    LineBreaksByLines(s);
    ByLinesFromTerminators(s, 0);
    assert s[0..] == s;
    NewlinesOfTerminators(s);
    NewlinesOfTerminators(LineBreaks(s));
  }

  /** One line that ends in neither a space nor a backslash passes the stage
      unchanged. */
  lemma OneLineUnbroken(s: string)
    requires OneLine(s, 0, |s|) && (s != [] ==> s[|s| - 1] != ' ' && s[|s| - 1] != '\\')
    ensures LineBreaks(s) == s
  {
    LineBreaksByLines(s);
    LineEndUnique(s, 0, |s|);
    assert s[0..] == s;
  }
}
