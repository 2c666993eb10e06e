/**
 The pattern escaping of krbd and what the escaped patterns match.

 `Match` is the pattern matching notation of section 2.13 of the POSIX.1-2017
 Shell and Utilities volume as fnmatch() applies it without flags: `*`, `?`,
 bracket expressions with ranges and `!`, and the escaping backslash. Inside
 brackets it has no character classes, collating symbols or quoting.
 */
module Glob {

  predicate IsMeta(c: char) {
    c == '*' || c == '?' || c == '['
  }

  /** escape_glob: each of * ? [ is wrapped in square brackets. */
  function EscapeGlob(s: string): string {
    if s == [] then []
    else (if IsMeta(s[0]) then ['[', s[0], ']'] else [s[0]]) + EscapeGlob(s[1..])
  }

  /** The first ']' of p at or after position i; |p| when there is none. */
  function Closing(p: string, i: nat): (j: nat)
    requires i <= |p|
    ensures i <= j <= |p|
    decreases |p| - i
  {
    if i == |p| || p[i] == ']' then i else Closing(p, i + 1)
  }

  predicate InSet(content: string, c: char) {
    content != [] &&
    if |content| >= 3 && content[1] == '-' then
      (content[0] <= c <= content[2]) || InSet(content[3..], c)
    else
      content[0] == c || InSet(content[1..], c)
  }

  predicate InBracket(content: string, c: char) {
    if content != [] && content[0] == '!' then !InSet(content[1..], c) else InSet(content, c)
  }

  /** Where the bracket expression opened at p[0] ends: a ']' that comes first in it is an ordinary character. */
  function BracketEnd(p: string): (j: nat)
    requires p != []
    ensures j <= |p|
  {
    var start := if |p| > 1 && p[1] == '!' then 2 else 1;
    if start < |p| then Closing(p, start + 1) else |p|
  }

  /** The text as a whole matches the pattern. */
  predicate Match(p: string, t: string)
    decreases |p| + |t|
  {
    if p == [] then t == []
    else if p[0] == '*' then Match(p[1..], t) || (t != [] && Match(p, t[1..]))
    else if t == [] then false
    else if p[0] == '?' then Match(p[1..], t[1..])
    else if p[0] == '\\' then |p| >= 2 && p[1] == t[0] && Match(p[2..], t[1..])
    else if p[0] == '[' && BracketEnd(p) < |p| then
      InBracket(p[1..BracketEnd(p)], t[0]) && Match(p[BracketEnd(p) + 1..], t[1..])
    else p[0] == t[0] && Match(p[1..], t[1..])
  }

  /** An unescaped star stands for any text. */
  lemma {:induction false} StarMatchesAny(p: string, t: string)
    ensures Match(['*'] + p, t) <==> exists k :: 0 <= k <= |t| && Match(p, t[k..])
    decreases |t|
  {
    assert (['*'] + p)[1..] == p && t[0..] == t;
    if t != [] {
      StarMatchesAny(p, t[1..]);
      forall k | 1 <= k <= |t| ensures t[1..][k - 1..] == t[k..] {
      }
      if Match(['*'] + p, t[1..]) {
        var k :| 0 <= k <= |t[1..]| && Match(p, t[1..][k..]);
        assert Match(p, t[k + 1..]);
      }
    }
  }

  /** An unescaped question mark stands for any one character, and an ordinary character for itself. */
  lemma OneCharacter(c: char, p: string, t: string)
    requires c != '*' && c != '[' && c != '\\'
    ensures Match([c] + p, t) <==> t != [] && (c == '?' || t[0] == c) && Match(p, t[1..])
  {
    assert ([c] + p)[1..] == p;
  }

  /** One wrapped character stands for itself. */
  lemma WrappedMatches(c: char, rest: string, t: string)
    requires IsMeta(c)
    ensures Match(['[', c, ']'] + rest, t) <==> t != [] && t[0] == c && Match(rest, t[1..])
  {
    var p := ['[', c, ']'] + rest;
    assert Closing(p, 2) == 2;
    assert BracketEnd(p) == 2;
    assert p[1..2] == [c] && p[3..] == rest;
    if t != [] {
      assert !InSet([c][1..], t[0]);
      assert InBracket([c], t[0]) <==> t[0] == c;
    }
  }

  /** What an escaped pattern does with its first character, when that is not a backslash. */
  lemma EscapedHead(s: string, t: string)
    requires s != [] && s[0] != '\\'
    ensures Match(EscapeGlob(s), t) <==> t != [] && t[0] == s[0] && Match(EscapeGlob(s[1..]), t[1..])
  {
    if IsMeta(s[0]) {
      WrappedMatches(s[0], EscapeGlob(s[1..]), t);
    } else {
      assert EscapeGlob(s)[1..] == EscapeGlob(s[1..]);
    }
  }

  /** For a name without backslash the escaped pattern matches that name and nothing else. */
  lemma {:induction false} EscapedMatchesOnlyItself(s: string, t: string)
    requires '\\' !in s
    ensures Match(EscapeGlob(s), t) <==> t == s
    decreases |s|
  {
    if s != [] {
      EscapedHead(s, t);
      if t != [] {
        EscapedMatchesOnlyItself(s[1..], t[1..]);
        assert s == [s[0]] + s[1..] && t == [t[0]] + t[1..];
      }
    }
  }

  function Backslashes(m: nat): string {
    if m == 0 then [] else ['\\'] + Backslashes(m - 1)
  }

  lemma {:induction false} BackslashesShift(m: nat, s: string)
    ensures Backslashes(m) + (['\\'] + s) == ['\\'] + (Backslashes(m) + s)
  {
    if m > 0 {
      BackslashesShift(m - 1, s);
      assert Backslashes(m) + (['\\'] + s) == ['\\'] + (Backslashes(m - 1) + (['\\'] + s));
      assert Backslashes(m) + s == ['\\'] + (Backslashes(m - 1) + s);
    }
  }

  /**
   An escaped pattern never matches its name behind extra backslashes, and a
   name holding a backslash not even as it is: the pattern's own backslash
   escapes the character after it, so the pattern falls behind by one.
   */
  lemma {:induction false} BackslashNeverMatches(s: string, m: nat)
    requires m > 0 || '\\' in s
    ensures !Match(EscapeGlob(s), Backslashes(m) + s)
    decreases |s|
  {
    var t := Backslashes(m) + s;
    if s == [] {
    } else if s[0] != '\\' {
      EscapedHead(s, t);
      if m == 0 {
        assert t == s;
        BackslashNeverMatches(s[1..], 0);
        assert Backslashes(0) + s[1..] == s[1..];
      }
    } else {
      assert t[0] == '\\';
      var p := EscapeGlob(s);
      assert p == ['\\'] + EscapeGlob(s[1..]);
      if |s| >= 2 && s[1] == '\\' {
        var r := s[2..];
        assert p[2..] == EscapeGlob(r);
        BackslashNeverMatches(r, m + 1);
        assert s == ['\\'] + (['\\'] + r);
        BackslashesShift(m, ['\\'] + r);
        BackslashesShift(m, r);
        assert t[1..] == Backslashes(m + 1) + r;
      }
    }
  }

  /** escape_glob denotes its argument alone exactly when the argument holds no backslash. */
  lemma EscapeDenotesSingletonIff(s: string)
    ensures (forall t :: Match(EscapeGlob(s), t) <==> t == s) <==> '\\' !in s
  {
    if '\\' in s {
      BackslashNeverMatches(s, 0);
      assert Backslashes(0) + s == s;
    } else {
      forall t ensures Match(EscapeGlob(s), t) <==> t == s {
        EscapedMatchesOnlyItself(s, t);
      }
    }
  }
}
