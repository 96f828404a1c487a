/** The unescaping stage, proved equal to a one-pass reference. */
module UnescapeStage {
  import opened Text
  import opened Rules
  import opened Markdown

  /** Reference: s with every backslash that immediately precedes a character
      of `marks` deleted, read left to right. */
  function Unescaped(s: string, marks: set<char>): string
    decreases |s|
  {
    if s == [] then []
    else if |s| >= 2 && s[0] == '\\' && s[1] in marks then [s[1]] + Unescaped(s[2..], marks)
    else [s[0]] + Unescaped(s[1..], marks)
  }

  /** One escape rule is the reference for its single marker. */
  lemma {:induction false} ScanEscape(s: string, ch: char, i: nat)
    requires ch != '\\' && i <= |s|
    ensures Outputs(Scan(Matches(Escape(ch), s), s, i)) == Unescaped(s[i..], {ch})
    decreases |s| - i
  {
    var ms := Matches(Escape(ch), s);
    if i < |s| {
      assert ms[i] == MatchAt(Escape(ch), s, i);
      if i + 1 < |s| && s[i] == '\\' && s[i + 1] == ch {
        OutputsCons(Hit(s[i..i + 2], [ch]), Scan(ms, s, i + 2));
        ScanEscape(s, ch, i + 2);
        assert s[i..][2..] == s[i + 2..];
      } else {
        OutputsCons(Kept(s[i]), Scan(ms, s, i + 1));
        ScanEscape(s, ch, i + 1);
        assert s[i..][1..] == s[i + 1..];
      }
    }
  }

  lemma ApplyEscape(s: string, ch: char)
    requires ch != '\\'
    ensures Apply(Escape(ch), s) == Unescaped(s, {ch})
  {
    ScanEscape(s, ch, 0);
    assert s[0..] == s;
  }

  /** The first character the reference produces. */
  lemma UnescapedHead(x: string, marks: set<char>)
    requires x != []
    ensures Unescaped(x, marks) != []
    ensures Unescaped(x, marks)[0] == if |x| >= 2 && x[0] == '\\' && x[1] in marks then x[1] else x[0]
  {
  }

  /** Two passes over disjoint marker sets make one pass over their union:
      deleting a backslash before a marker of the first set never puts a
      backslash in front of a marker of the second. */
  lemma {:induction false} UnescapedTwice(s: string, a: set<char>, b: set<char>)
    requires '\\' !in a && '\\' !in b && a !! b
    ensures Unescaped(Unescaped(s, a), b) == Unescaped(s, a + b)
    decreases |s|
  {
    if s == [] {
    } else if |s| >= 2 && s[0] == '\\' && s[1] in a {
      var y := Unescaped(s[2..], a);
      assert ([s[1]] + y)[1..] == y;
      UnescapedTwice(s[2..], a, b);
    } else if |s| >= 2 && s[0] == '\\' && s[1] in b {
      var y := Unescaped(s[2..], a);
      assert Unescaped(s[1..], a) == [s[1]] + y by {
        assert s[1..][1..] == s[2..];
      }
      assert Unescaped(s, a) == ['\\', s[1]] + y;
      assert (['\\', s[1]] + y)[2..] == y;
      UnescapedTwice(s[2..], a, b);
    } else if s[0] == '\\' && |s| >= 2 {
      var y := Unescaped(s[1..], a);
      UnescapedHead(s[1..], a);
      assert s[1..][0] == s[1];
      assert (['\\'] + y)[1..] == y;
      UnescapedTwice(s[1..], a, b);
    } else {
      var y := Unescaped(s[1..], a);
      assert ([s[0]] + y)[1..] == y;
      UnescapedTwice(s[1..], a, b);
    }
  }

  /** The three escape rules together delete exactly the backslashes that
      immediately precede '*', '_' or '~'. */
  lemma UnescapeReference(s: string)
    ensures Unescape(s) == Unescaped(s, {'*', '_', '~'})
  {
    var s1 := Apply(Escape('*'), s);
    var s2 := Apply(Escape('_'), s1);
    assert Unescape(s) == Apply(Escape('~'), s2) by {
      assert EscapeRules[1..][1..][1..] == [];
    }
    ApplyEscape(s, '*');
    ApplyEscape(s1, '_');
    ApplyEscape(s2, '~');
    UnescapedTwice(s, {'*'}, {'_'});
    UnescapedTwice(s, {'*', '_'}, {'~'});
    assert {'*'} + {'_'} == {'*', '_'};
    assert {'*', '_'} + {'~'} == {'*', '_', '~'};
  }

  lemma {:induction false} UnescapedPlain(s: string, marks: set<char>)
    requires '\\' !in s
    ensures Unescaped(s, marks) == s
    decreases |s|
  {
    if s != [] {
      UnescapedPlain(s[1..], marks);
    }
  }

  lemma {:induction false} UnescapedShorter(s: string, marks: set<char>)
    ensures |Unescaped(s, marks)| <= |s|
    decreases |s|
  {
    if |s| >= 2 && s[0] == '\\' && s[1] in marks {
      UnescapedShorter(s[2..], marks);
    } else if s != [] {
      UnescapedShorter(s[1..], marks);
    }
  }

  /** Text without backslashes passes unchanged; no text gets longer. */
  lemma UnescapeBounds(s: string)
    ensures '\\' !in s ==> Unescape(s) == s
    ensures |Unescape(s)| <= |s|
  {
    UnescapeReference(s);
    if '\\' !in s {
      UnescapedPlain(s, {'*', '_', '~'});
    }
    UnescapedShorter(s, {'*', '_', '~'});
  }
}
