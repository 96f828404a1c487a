/** Character classes and line geometry of ECMAScript regular expressions,
    as the markdown rules of script.js use them. */
module Text {

  datatype Option<T> = None | Some(value: T)

  /** ECMAScript LineTerminator: what `.` refuses and what multiline `^`/`$` look at. */
  predicate IsLineTerminator(c: char)
  {
    c == '\n' || c == '\r' || c == '\U{2028}' || c == '\U{2029}'
  }

  /** ECMAScript `\s`: WhiteSpace plus LineTerminator. */
  predicate IsSpace(c: char)
  {
    c == '\t' || c == '\U{B}' || c == '\U{C}' || c == ' ' || c == '\U{A0}' || c == '\U{1680}'
    || ('\U{2000}' <= c <= '\U{200A}') || c == '\U{202F}' || c == '\U{205F}' || c == '\U{3000}'
    || c == '\U{FEFF}' || IsLineTerminator(c)
  }

  /** `[A-Za-z]` */
  predicate IsLetter(c: char)
  {
    'A' <= c <= 'Z' || 'a' <= c <= 'z'
  }

  /** Multiline `^` holds at position p of s. */
  predicate AtLineStart(s: string, p: nat)
  {
    p == 0 || (p <= |s| && IsLineTerminator(s[p - 1]))
  }

  /** Multiline `$` holds at position p of s. */
  predicate AtLineEnd(s: string, p: nat)
  {
    p == |s| || (p < |s| && IsLineTerminator(s[p]))
  }

  /** No line terminator in s[lo..hi]. */
  predicate OneLine(s: string, lo: nat, hi: nat)
    requires lo <= hi <= |s|
  {
    forall k :: lo <= k < hi ==> !IsLineTerminator(s[k])
  }

  /** No '\n' in s[lo..hi] (what `[^\n]` accepts). */
  predicate NoNewline(s: string, lo: nat, hi: nat)
    requires lo <= hi <= |s|
  {
    forall k :: lo <= k < hi ==> s[k] != '\n'
  }

  /** Where a greedy `.*` started at p stops: the next line terminator, or the end. */
  function LineEnd(s: string, p: nat): (e: nat)
    requires p <= |s|
    ensures p <= e <= |s| && AtLineEnd(s, e) && OneLine(s, p, e)
    decreases |s| - p
  {
    if p == |s| || IsLineTerminator(s[p]) then p else LineEnd(s, p + 1)
  }

  /** Where a greedy `[^\n]*` started at p stops: the next '\n', or the end. */
  function NewlineFrom(s: string, p: nat): (e: nat)
    requires p <= |s|
    ensures p <= e <= |s| && (e == |s| || s[e] == '\n') && NoNewline(s, p, e)
    decreases |s| - p
  {
    if p == |s| || s[p] == '\n' then p else NewlineFrom(s, p + 1)
  }

  /** Where a greedy `\s*` started at p stops. */
  function SpaceRunEnd(s: string, p: nat): (e: nat)
    requires p <= |s|
    ensures p <= e <= |s| && (e == |s| || !IsSpace(s[e]))
    ensures forall k :: p <= k < e ==> IsSpace(s[k])
    decreases |s| - p
  {
    if p == |s| || !IsSpace(s[p]) then p else SpaceRunEnd(s, p + 1)
  }

  /** A line end is the first line terminator at or after p. */
  lemma {:induction false} LineEndUnique(s: string, p: nat, e: nat)
    requires p <= e <= |s| && OneLine(s, p, e) && AtLineEnd(s, e)
    ensures LineEnd(s, p) == e
    decreases e - p
  {
    if p < e {
      LineEndUnique(s, p + 1, e);
    }
  }

  lemma LineEndShift(s: string, i: nat)
    requires i <= |s|
    ensures LineEnd(s[i..], 0) + i == LineEnd(s, i)
  {
    var e := LineEnd(s[i..], 0);
    assert OneLine(s, i, i + e) by {
      forall k | i <= k < i + e ensures !IsLineTerminator(s[k]) {
        assert s[k] == s[i..][k - i];
      }
    }
    assert AtLineEnd(s, i + e) by {
      if e < |s[i..]| { assert s[i + e] == s[i..][e]; }
    }
    LineEndUnique(s, i, i + e);
  }

  /** Decimal notation of n, as JavaScript's template literals print a number. */
  function Digits(n: nat): (r: string)
    ensures |r| >= 1 && forall k :: 0 <= k < |r| ==> '0' <= r[k] <= '9'
    decreases n
  {
    if n < 10 then ["0123456789"[n]] else Digits(n / 10) + ["0123456789"[n % 10]]
  }

  lemma OneLineAppend(a: string, b: string)
    requires OneLine(a, 0, |a|) && OneLine(b, 0, |b|)
    ensures OneLine(a + b, 0, |a + b|)
  {
    forall k | 0 <= k < |a + b| ensures !IsLineTerminator((a + b)[k]) {
      if k >= |a| { assert (a + b)[k] == b[k - |a|]; }
    }
  }

  /** The line terminators of s, in order. */
  function Terminators(s: string): string
  {
    if s == [] then []
    else (if IsLineTerminator(s[0]) then [s[0]] else []) + Terminators(s[1..])
  }

  /** Number of occurrences of c in s. */
  function Count(s: string, c: char): nat
  {
    if s == [] then 0 else (if s[0] == c then 1 else 0) + Count(s[1..], c)
  }

  lemma {:induction false} TerminatorsAppend(a: string, b: string)
    ensures Terminators(a + b) == Terminators(a) + Terminators(b)
  {
    if a == [] {
      assert a + b == b;
    } else {
      TerminatorsAppend(a[1..], b);
      TerminatorsConsAppend(a, b, Terminators(a[1..] + b));
      Regroup(Terminators(a + b), Terminators(a[1..] + b),
              if IsLineTerminator(a[0]) then [a[0]] else [], Terminators(a[1..]), Terminators(b));
    }
  }

  lemma Regroup(x: string, y: string, h: string, p: string, q: string)
    requires x == h + y && y == p + q
    ensures x == (h + p) + q
  {
  }

  /** Unfolding Terminators on a + b at the first character of a. */
  lemma TerminatorsConsAppend(a: string, b: string, rest: string)
    requires a != [] && Terminators(a[1..] + b) == rest
    ensures Terminators(a + b) == (if IsLineTerminator(a[0]) then [a[0]] else []) + rest
  {
    assert (a + b)[1..] == a[1..] + b;
  }

  lemma {:induction false} CountAppend(a: string, b: string, c: char)
    ensures Count(a + b, c) == Count(a, c) + Count(b, c)
  {
    if a == [] {
      assert a + b == b;
    } else {
      assert (a + b)[1..] == a[1..] + b;
      CountAppend(a[1..], b, c);
      assert Count(a + b, c) == (if a[0] == c then 1 else 0) + Count(a[1..] + b, c);
    }
  }

  /** The line terminators of s determine its newline count. */
  lemma {:induction false} NewlinesOfTerminators(s: string)
    ensures Count(Terminators(s), '\n') == Count(s, '\n')
  {
    if s != [] {
      NewlinesOfTerminators(s[1..]);
      CountAppend(if IsLineTerminator(s[0]) then [s[0]] else [], Terminators(s[1..]), '\n');
    }
  }

  /** Text without line terminators has none to keep. */
  lemma {:induction false} TerminatorsOfLine(s: string)
    requires OneLine(s, 0, |s|)
    ensures Terminators(s) == []
  {
    if s != [] {
      assert OneLine(s[1..], 0, |s| - 1) by {
        forall k | 0 <= k < |s| - 1 ensures !IsLineTerminator(s[1..][k]) {
          assert s[1..][k] == s[k + 1];
        }
      }
      TerminatorsOfLine(s[1..]);
    }
  }
}
