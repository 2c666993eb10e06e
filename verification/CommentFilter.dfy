/**
 The input filter of the state-diagram generator: comments are stripped by an
 automaton that sees one character at a time, and what is left is cut into
 statements.
 */
module CommentFilter {

  // ------------------------------------------- what stripping means

  /** The leftmost position at or after i where a is followed by b; |s| when there is none. */
  function NextPair(s: string, a: char, b: char, i: nat): (j: nat)
    requires i <= |s|
    ensures i <= j <= |s| && (j < |s| ==> j + 1 < |s|)
    decreases |s| - i
  {
    if i + 1 >= |s| then |s|
    else if s[i] == a && s[i + 1] == b then i
    else NextPair(s, a, b, i + 1)
  }

  lemma {:induction false} NextPairIsLeftmost(s: string, a: char, b: char, i: nat, k: nat)
    requires i <= k && k + 1 < |s|
    ensures var j := NextPair(s, a, b, i);
            && (j < |s| ==> s[j] == a && s[j + 1] == b)
            && (k < j ==> !(s[k] == a && s[k + 1] == b))
    decreases |s| - i
  {
    if !(s[i] == a && s[i + 1] == b) && i + 2 < |s| {
      NextPairIsLeftmost(s, a, b, i + 1, if k == i then i + 1 else k);
    }
  }

  /** What is left of the text from i on, outside a comment: cut from the leftmost slash-star. */
  function CodeFrom(s: string, i: nat): string
    requires i <= |s|
    decreases |s| - i
  {
    var j := NextPair(s, '/', '*', i);
    if j == |s| then s[i..] else s[i..j] + CommentFrom(s, j + 2)
  }

  /** What is left from i on, inside a comment: it goes up to the first star-slash, or swallows the rest. */
  function CommentFrom(s: string, i: nat): string
    requires i <= |s|
    decreases |s| - i
  {
    var j := NextPair(s, '*', '/', i);
    if j == |s| then "" else CodeFrom(s, j + 2)
  }

  function Strip(s: string): string {
    CodeFrom(s, 0)
  }

  /** The text after the last comment ends with a slash. */
  predicate EndsInSlash(s: string) {
    CodeEndsInSlash(s, 0)
  }

  predicate CodeEndsInSlash(s: string, i: nat)
    requires i <= |s|
    decreases |s| - i
  {
    var j := NextPair(s, '/', '*', i);
    if j == |s| then i < |s| && s[|s| - 1] == '/' else CommentEndsInSlash(s, j + 2)
  }

  predicate CommentEndsInSlash(s: string, i: nat)
    requires i <= |s|
    decreases |s| - i
  {
    var j := NextPair(s, '*', '/', i);
    j != |s| && CodeEndsInSlash(s, j + 2)
  }

  /** No position of the text has a followed by b. */
  predicate HasNoPair(s: string, a: char, b: char) {
    forall k :: 0 <= k && k + 1 < |s| ==> !(s[k] == a && s[k + 1] == b)
  }

  lemma {:induction false} NoPairFrom(s: string, a: char, b: char, i: nat, j: nat)
    requires i <= j <= |s| && forall k :: i <= k < j && k + 1 < |s| ==> !(s[k] == a && s[k + 1] == b)
    requires j < |s| ==> j + 1 < |s| && s[j] == a && s[j + 1] == b
    ensures NextPair(s, a, b, i) == j
    decreases |s| - i
  {
    if i + 1 < |s| && i < j {
      NoPairFrom(s, a, b, i + 1, j);
    }
  }

  /** A text without slash-star is left as it is. */
  lemma StripWithoutComment(s: string)
    requires HasNoPair(s, '/', '*')
    ensures Strip(s) == s
  {
    NoPairFrom(s, '/', '*', 0, |s|);
  }

  /** Stripping from a position on depends on the text from there on alone. */
  lemma {:induction false} PairShifts(a: string, s: string, c: char, d: char, i: nat)
    requires i <= |s|
    ensures NextPair(a + s, c, d, |a| + i) == |a| + NextPair(s, c, d, i)
    decreases |s| - i
  {
    if i + 1 < |s| {
      assert (a + s)[|a| + i] == s[i] && (a + s)[|a| + i + 1] == s[i + 1];
      PairShifts(a, s, c, d, i + 1);
    }
  }

  lemma {:induction false} CodeShifts(a: string, s: string, i: nat)
    requires i <= |s|
    ensures CodeFrom(a + s, |a| + i) == CodeFrom(s, i)
    decreases |s| - i, 1
  {
    PairShifts(a, s, '/', '*', i);
    var j := NextPair(s, '/', '*', i);
    assert (a + s)[|a| + i..|a| + j] == s[i..j];
    if j < |s| {
      CommentShifts(a, s, j + 2);
    }
  }

  lemma {:induction false} CommentShifts(a: string, s: string, i: nat)
    requires i <= |s|
    ensures CommentFrom(a + s, |a| + i) == CommentFrom(s, i)
    decreases |s| - i, 0
  {
    PairShifts(a, s, '*', '/', i);
    var j := NextPair(s, '*', '/', i);
    if j < |s| {
      CodeShifts(a, s, j + 2);
    }
  }

  /** A pair behind a text that has none, not even with its first character, is the first. */
  lemma FirstPairAt(a: string, c: char, d: char, tail: string)
    requires HasNoPair(a + [c], c, d)
    ensures NextPair(a + [c, d] + tail, c, d, 0) == |a|
  {
    var s := a + [c, d] + tail;
    forall k | 0 <= k < |a| ensures !(s[k] == c && s[k + 1] == d) {
      assert s[k] == (a + [c])[k] && s[k + 1] == (a + [c])[k + 1];
    }
    NoPairFrom(s, c, d, 0, |a|);
  }

  /** Up to its first slash-star a text is kept. */
  lemma StripUpToComment(code: string, tail: string)
    requires HasNoPair(code + "/", '/', '*')
    ensures Strip(code + "/*" + tail) == code + CommentFrom(tail, 0)
  {
    var s := code + "/*" + tail;
    FirstPairAt(code, '/', '*', tail);
    CommentShifts(code + "/*", tail, 0);
    assert s[0..|code|] == code;
  }

  /** The first comment of a text, from its slash-star up to the first star-slash after it, goes; the rest goes on. */
  lemma StripComment(code: string, comment: string, rest: string)
    requires HasNoPair(code + "/", '/', '*') && HasNoPair(comment + "*", '*', '/')
    ensures Strip(code + "/*" + (comment + "*/" + rest)) == code + Strip(rest)
  {
    StripUpToComment(code, comment + "*/" + rest);
    FirstPairAt(comment, '*', '/', rest);
    CodeShifts(comment + "*/", rest, 0);
  }

  /** A comment that is not closed swallows the rest. */
  lemma StripOpenComment(code: string, comment: string)
    requires HasNoPair(code + "/", '/', '*') && HasNoPair(comment, '*', '/')
    ensures Strip(code + "/*" + comment) == code
  {
    StripUpToComment(code, comment);
    NoPairFrom(comment, '*', '/', 0, |comment|);
  }

  // ----------------------------------------------------- the automaton

  /**
   What the automaton's state still makes of the input from k on. `saw` says
   whether the first character of the mark it watches for, a slash outside a
   comment and a star inside one, was the last character read.
   */
  ghost predicate Watches(s: string, k: nat, inComment: bool, saw: bool) {
    k <= |s| && (saw ==> k > 0 && s[k - 1] == if inComment then '*' else '/')
  }

  ghost function Rest(s: string, k: nat, inComment: bool, saw: bool): string
    requires Watches(s, k, inComment, saw)
  {
    var i := if saw then k - 1 else k;
    if inComment then CommentFrom(s, i) else CodeFrom(s, i)
  }

  ghost predicate RestEndsInSlash(s: string, k: nat, inComment: bool, saw: bool)
    requires Watches(s, k, inComment, saw)
  {
    var i := if saw then k - 1 else k;
    if inComment then CommentEndsInSlash(s, i) else CodeEndsInSlash(s, i)
  }

  /** Outside a comment: a character that does not open one is passed on. */
  lemma PlainCode(s: string, i: nat)
    requires i < |s| && !(s[i] == '/' && i + 1 < |s| && s[i + 1] == '*')
    ensures CodeFrom(s, i) == [s[i]] + CodeFrom(s, i + 1)
    ensures i + 1 < |s| ==> CodeEndsInSlash(s, i) == CodeEndsInSlash(s, i + 1)
    ensures s[i] != '/' ==> CodeEndsInSlash(s, i) == CodeEndsInSlash(s, i + 1)
  {
    var j := NextPair(s, '/', '*', i);
    assert j == NextPair(s, '/', '*', i + 1);
    assert s[i..j] == [s[i]] + s[i + 1..j];
  }

  /** Inside a comment: a character that does not close it is dropped. */
  lemma PlainComment(s: string, i: nat)
    requires i < |s| && !(s[i] == '*' && i + 1 < |s| && s[i + 1] == '/')
    ensures CommentFrom(s, i) == CommentFrom(s, i + 1)
    ensures CommentEndsInSlash(s, i) == CommentEndsInSlash(s, i + 1)
  {
  }

  lemma ConcatAssociates(a: string, b: string, c: string)
    ensures a + (b + c) == (a + b) + c && "" + c == c
  {
  }

  lemma CommentStep(s: string, k: nat, saw: bool)
    requires k < |s| && Watches(s, k, true, saw)
    ensures var open, star := !(saw && s[k] == '/'), s[k] == '*';
            && Watches(s, k + 1, open, star)
            && Rest(s, k, true, saw) == Rest(s, k + 1, open, star)
            && RestEndsInSlash(s, k, true, saw) == RestEndsInSlash(s, k + 1, open, star)
  {
    if saw && s[k] != '/' { PlainComment(s, k - 1); }
    if !(saw && s[k] == '/') && s[k] != '*' { PlainComment(s, k); }
  }

  /** A slash that turns out not to open a comment is passed on late. */
  lemma LateSlash(s: string, k: nat)
    requires k < |s| && Watches(s, k, false, true) && s[k] != '*'
    ensures Rest(s, k, false, true) == "/" + Rest(s, k, false, false)
    ensures RestEndsInSlash(s, k, false, true) == RestEndsInSlash(s, k, false, false)
  {
    PlainCode(s, k - 1);
  }

  lemma CodeStep(s: string, k: nat)
    requires k < |s|
    ensures var slash := s[k] == '/';
            && Watches(s, k + 1, false, slash)
            && Rest(s, k, false, false) == (if slash then "" else [s[k]]) + Rest(s, k + 1, false, slash)
            && RestEndsInSlash(s, k, false, false) == RestEndsInSlash(s, k + 1, false, slash)
  {
    if s[k] != '/' { PlainCode(s, k); } else { assert "" + CodeFrom(s, k) == CodeFrom(s, k); }
  }

  lemma OpeningStep(s: string, k: nat)
    requires k < |s| && Watches(s, k, false, true) && s[k] == '*'
    ensures Rest(s, k, false, true) == Rest(s, k + 1, true, false)
    ensures RestEndsInSlash(s, k, false, true) == RestEndsInSlash(s, k + 1, true, false)
  {
    assert NextPair(s, '/', '*', k - 1) == k - 1;
    ConcatAssociates("", "", CommentFrom(s, k + 1));
  }

  /** The loop body: what the k-th character passes on, and the state after it. */
  method Feed(s: string, k: nat, inComment: bool, saw: bool)
    returns (passed: string, inComment': bool, saw': bool)
    requires k < |s| && Watches(s, k, inComment, saw)
    ensures Watches(s, k + 1, inComment', saw')
    ensures Rest(s, k, inComment, saw) == passed + Rest(s, k + 1, inComment', saw')
    ensures RestEndsInSlash(s, k, inComment, saw) == RestEndsInSlash(s, k + 1, inComment', saw')
  {
    var c := s[k];
    passed, inComment', saw' := "", inComment, saw;
    ConcatAssociates("", "", Rest(s, k, inComment, saw));
    if inComment {
      CommentStep(s, k, saw);
      if saw {
        if c == '/' {
          inComment' := false;
        }
        saw' := false;
      }
      if c == '*' {
        saw' := true;
      }
      return;
    }
    if saw {
      if c == '*' {
        OpeningStep(s, k);
        inComment', saw' := true, false;
        return;
      } else {
        LateSlash(s, k);
        passed, saw' := "/", false;
      }
    }
    CodeStep(s, k);
    ConcatAssociates(passed, if c == '/' then "" else [c], Rest(s, k + 1, false, c == '/'));
    if c == '/' {
      saw' := true;
      return;
    }
    passed := passed + [c];
  }

  /**
   remove_multiline_comments. A slash it has seen but not passed on when the
   input ends is lost; otherwise the result is exactly the stripped text.
   */
  method RemoveMultilineComments(s: string) returns (out: string)
    ensures Strip(s) == out + if EndsInSlash(s) then "/" else ""
    ensures out == Strip(s) <==> !EndsInSlash(s)
  {
    out := "";
    var saw, inComment := false, false;
    ghost var goal, slash := Strip(s), EndsInSlash(s);
    for k := 0 to |s|
      invariant Watches(s, k, inComment, saw)
      invariant goal == out + Rest(s, k, inComment, saw)
      invariant slash == RestEndsInSlash(s, k, inComment, saw)
    {
      var passed, inComment', saw' := Feed(s, k, inComment, saw);
      ConcatAssociates(out, passed, Rest(s, k + 1, inComment', saw'));
      out, inComment, saw := out + passed, inComment', saw';
    }
    AtTheEnd(s, inComment, saw);
  }

  /** At the end of the input only a slash can be left. */
  lemma AtTheEnd(s: string, inComment: bool, saw: bool)
    requires Watches(s, |s|, inComment, saw)
    ensures Rest(s, |s|, inComment, saw) == if !inComment && saw then "/" else ""
    ensures RestEndsInSlash(s, |s|, inComment, saw) == (!inComment && saw)
  {
    if saw {
      assert s[|s| - 1..] == [s[|s| - 1]];
    }
  }

  // -------------------------------------------------------- statements

  predicate IsDelimiter(c: char) {
    c == ';' || c == '{' || c == '}'
  }

  /** Exactly one delimiter, at the end. */
  predicate IsStatement(chunk: string) {
    && chunk != "" && IsDelimiter(chunk[|chunk| - 1])
    && forall i :: 0 <= i < |chunk| - 1 ==> !IsDelimiter(chunk[i])
  }

  /** `lstrip("\n")`. */
  function StripNewlines(s: string): string {
    if s != "" && s[0] == '\n' then StripNewlines(s[1..]) else s
  }

  function Concat(chunks: seq<string>): string {
    if chunks == [] then "" else Concat(chunks[..|chunks| - 1]) + chunks[|chunks| - 1]
  }

  lemma {:induction false} StripNewlinesKeepsStatement(s: string)
    requires IsStatement(s)
    ensures IsStatement(StripNewlines(s))
    ensures '\n' !in s ==> StripNewlines(s) == s
    decreases |s|
  {
    if s[0] == '\n' {
      StripNewlinesKeepsStatement(s[1..]);
    }
  }

  /** The chunks are the pieces without their leading newlines, and both are statements. */
  ghost predicate AreChunks(chunks: seq<string>, pieces: seq<string>) {
    && |chunks| == |pieces|
    && forall i :: 0 <= i < |chunks| ==>
         IsStatement(chunks[i]) && IsStatement(pieces[i]) && chunks[i] == StripNewlines(pieces[i])
  }

  lemma AddChunk(chunks: seq<string>, pieces: seq<string>, current: string, c: char)
    requires AreChunks(chunks, pieces) && IsDelimiter(c) && forall d :: d in current ==> !IsDelimiter(d)
    ensures AreChunks(chunks + [StripNewlines(current + [c])], pieces + [current + [c]])
    ensures Concat(pieces + [current + [c]]) == Concat(pieces) + current + [c]
    ensures '\n' !in current ==> StripNewlines(current + [c]) == current + [c]
  {
    var piece := current + [c];
    assert IsStatement(piece);
    StripNewlinesKeepsStatement(piece);
    assert (pieces + [piece])[..|pieces|] == pieces;
    ConcatAssociates(Concat(pieces), current, [c]);
  }

  /**
   acc_lines. `pieces` are the statements before leading newlines are dropped:
   together they are the input up to its last delimiter.
   */
  method AccLines(s: string) returns (chunks: seq<string>, ghost pieces: seq<string>, ghost rest: string)
    ensures Concat(pieces) + rest == s && forall c :: c in rest ==> !IsDelimiter(c)
    ensures AreChunks(chunks, pieces)
    ensures forall i :: 0 <= i < |chunks| ==> IsStatement(chunks[i])
    ensures '\n' !in s ==> chunks == pieces
  {
    chunks, pieces := [], [];
    var current := "";
    for k := 0 to |s|
      invariant Concat(pieces) + current == s[..k]
      invariant forall c :: c in current ==> !IsDelimiter(c)
      invariant AreChunks(chunks, pieces)
      invariant '\n' !in s ==> chunks == pieces && '\n' !in current
    {
      assert s[..k + 1] == s[..k] + [s[k]];
      ConcatAssociates(Concat(pieces), current, [s[k]]);
      if IsDelimiter(s[k]) {
        AddChunk(chunks, pieces, current, s[k]);
        current := current + [s[k]];
        chunks, pieces := chunks + [StripNewlines(current)], pieces + [current];
        current := "";
      } else {
        current := current + [s[k]];
      }
    }
    rest := current;
  }

  // ---------------------------------------------------------- pipeline

  /** remove_single_line_comments on one line: from a double slash up to the line's newline. */
  function CutLine(line: string): string {
    var i := NextPair(line, '/', '/', 0);
    if i == |line| then line
    else line[..i] + if line[|line| - 1] == '\n' then "\n" else ""
  }

  function RemoveSingleLineComments(lines: seq<string>): seq<string> {
    if lines == [] then []
    else
      RemoveSingleLineComments(lines[..|lines| - 1]) +
      var last := lines[|lines| - 1];
      if last != "" && last[0] == '#' then [] else [CutLine(last)]
  }

  /** The only newline of the line, if it has one, ends it, as in what a file yields. */
  predicate IsLine(line: string) {
    forall k :: 0 <= k < |line| - 1 ==> line[k] != '\n'
  }

  /** The line without the newline at its end. */
  function Body(line: string): string {
    if line != "" && line[|line| - 1] == '\n' then line[..|line| - 1] else line
  }

  /**
   What is kept of a line: the part in front of the first double slash, or all
   of it, and its newline.
   */
  ghost predicate IsCut(line: string, kept: string) {
    var n := |Body(kept)|;
    && Body(kept) <= Body(line) && HasNoPair(Body(kept), '/', '/')
    && kept[n..] == line[|Body(line)|..]
    && (n == |Body(line)| || (n + 1 < |Body(line)| && line[n] == '/' && line[n + 1] == '/'))
  }

  lemma CutLineCuts(line: string)
    requires IsLine(line)
    ensures IsCut(line, CutLine(line))
  {
    var i := NextPair(line, '/', '/', 0);
    var body, kept := Body(line), CutLine(line);
    forall k | 0 <= k && k + 1 < |line| && k < i ensures !(line[k] == '/' && line[k + 1] == '/') {
      NextPairIsLeftmost(line, '/', '/', 0, k);
    }
    if i < |line| {
      NextPairIsLeftmost(line, '/', '/', 0, i);
      assert line[i + 1] != '\n' && i + 1 < |body|;
      assert Body(kept) == line[..i];
    }
  }

  /** The lines kept: none for a line that starts with '#', and one cut from each other line, in order. */
  ghost predicate AreKept(lines: seq<string>, kept: seq<string>) {
    if lines == [] then kept == []
    else
      var front, last := lines[..|lines| - 1], lines[|lines| - 1];
      if last != "" && last[0] == '#' then AreKept(front, kept)
      else kept != [] && AreKept(front, kept[..|kept| - 1]) && IsCut(last, kept[|kept| - 1])
  }

  lemma {:induction false} SingleLineCommentsGo(lines: seq<string>)
    requires forall i :: 0 <= i < |lines| ==> IsLine(lines[i])
    ensures AreKept(lines, RemoveSingleLineComments(lines))
    decreases |lines|
  {
    if lines != [] {
      var front, last := lines[..|lines| - 1], lines[|lines| - 1];
      SingleLineCommentsGo(front);
      CutLineCuts(last);
      assert RemoveSingleLineComments(front) + [] == RemoveSingleLineComments(front);
      assert (RemoveSingleLineComments(front) + [CutLine(last)])[..|RemoveSingleLineComments(front)|] ==
             RemoveSingleLineComments(front);
    }
  }

  function ToSpace(c: char): char {
    if c == '\n' then ' ' else c
  }

  /** to_char. */
  function ToChar(lines: seq<string>): string {
    if lines == [] then ""
    else
      var last := lines[|lines| - 1];
      ToChar(lines[..|lines| - 1]) + seq(|last|, i requires 0 <= i < |last| => ToSpace(last[i]))
  }

  lemma {:induction false} ToCharHasNoNewline(lines: seq<string>)
    ensures '\n' !in ToChar(lines)
    decreases |lines|
  {
    if lines != [] {
      ToCharHasNoNewline(lines[..|lines| - 1]);
    }
  }

  /** Every character stays at its place; a newline becomes a space. */
  ghost predicate IsSpaced(text: string, spaced: string) {
    |spaced| == |text| && forall k :: 0 <= k < |text| ==> spaced[k] == if text[k] == '\n' then ' ' else text[k]
  }

  lemma {:induction false} ToCharKeepsPlaces(lines: seq<string>)
    ensures IsSpaced(Concat(lines), ToChar(lines))
    decreases |lines|
  {
    if lines != [] {
      ToCharKeepsPlaces(lines[..|lines| - 1]);
    }
  }

  /** Stripping adds nothing. */
  lemma {:induction false} StripKeepsCharacters(s: string, i: nat, c: char)
    requires i <= |s| && c in CodeFrom(s, i)
    ensures c in s
    decreases |s| - i
  {
    var j := NextPair(s, '/', '*', i);
    if j < |s| && c !in s[i..j] {
      StripKeepsCharacters(s, NextPair(s, '*', '/', j + 2) + 2, c);
    }
  }

  /** The last two stages, on characters: comments stripped, and cut into statements. */
  method FilterText(s: string) returns (chunks: seq<string>, ghost rest: string)
    requires '\n' !in s
    ensures Concat(chunks) + rest == Strip(s)
    ensures forall c :: c in rest ==> !IsDelimiter(c)
    ensures forall i :: 0 <= i < |chunks| ==> IsStatement(chunks[i])
  {
    var stripped := RemoveMultilineComments(s);
    if '\n' in stripped {
      StripKeepsCharacters(s, 0, '\n');
    }
    ghost var pieces: seq<string>;
    chunks, pieces, rest := AccLines(stripped);
    ghost var slash := if EndsInSlash(s) then "/" else "";
    ConcatAssociates(Concat(chunks), rest, slash);
    rest := rest + slash;
  }

  predicate AreLines(lines: seq<string>) {
    forall i :: 0 <= i < |lines| ==> IsLine(lines[i])
  }

  /** One of the three delimiters at the end, and none before. */
  predicate IsCutAfterDelimiter(chunk: string) {
    && chunk != "" && chunk[|chunk| - 1] in ";{}"
    && forall i :: 0 <= i < |chunk| - 1 ==> chunk[i] !in ";{}"
  }

  lemma StatementIsCut(chunk: string)
    ensures IsStatement(chunk) <==> IsCutAfterDelimiter(chunk)
  {
    assert forall c :: IsDelimiter(c) <==> c in ";{}";
  }

  /**
   do_filter. The statements are exactly what is kept of the lines, newlines
   made spaces and comments stripped, cut after every delimiter up to the last
   one. The slash that the comment automaton may lose at the very end belongs
   to no statement.
   */
  method DoFilter(lines: seq<string>)
    returns (chunks: seq<string>, ghost kept: seq<string>, ghost text: string, ghost rest: string)
    ensures AreLines(lines) ==> AreKept(lines, kept)
    ensures IsSpaced(Concat(kept), text)
    ensures Concat(chunks) + rest == Strip(text)
    ensures forall c :: c in rest ==> c !in ";{}"
    ensures forall i :: 0 <= i < |chunks| ==> IsCutAfterDelimiter(chunks[i])
  {
    var cut := RemoveSingleLineComments(lines);
    var s := ToChar(cut);
    kept, text := cut, s;
    if AreLines(lines) {
      SingleLineCommentsGo(lines);
    }
    ToCharKeepsPlaces(cut);
    ToCharHasNoNewline(cut);
    chunks, rest := FilterText(s);
    forall i | 0 <= i < |chunks| ensures IsCutAfterDelimiter(chunks[i]) {
      StatementIsCut(chunks[i]);
    }
  }
}
