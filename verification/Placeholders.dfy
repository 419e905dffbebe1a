/**
 The placeholder scanner of mysql/generic/mysql.c: which question marks of a command it
 takes for placeholders, and exactly when a slash or a comment makes it lose or invent one.
 */
module Placeholders {

  const NUL := '\0'

  /** Where the scanner stands: in plain code, just after a slash, in a comment, or in a literal. */
  datatype Mode = Code | Slash | Block | Line | Literal(delim: char) | Escaped(delim: char)

  /** One character on, with one character of lookahead. */
  function Next(m: Mode, c: char, following: char): Mode {
    match m
    case Code => if c == '/' then Slash else if c == '\'' || c == '\"' then Literal(c) else Code
    case Slash => if c == '*' then Block else if c == '/' then Line else Code
    case Block => if c == '*' && following == '/' then Code else Block
    case Line => if c == '\n' || c == '/' then Code else Line
    case Literal(d) => if c == '\\' then Escaped(d) else if c == d then Code else m
    case Escaped(d) => Literal(d)
  }

  function First(s: string, after: char): char {
    if s == [] then after else s[0]
  }

  /** The mode after text s, which is followed by the character after. */
  function Run(m: Mode, s: string, after: char): Mode
    decreases |s|
  {
    if s == [] then m else Run(Next(m, s[0], First(s[1..], after)), s[1..], after)
  }

  /** The positions of the placeholders in s, counted from base. */
  function Marks(m: Mode, s: string, after: char, base: nat): seq<int>
    decreases |s|
  {
    if s == [] then []
    else
      (if m == Code && s[0] == '?' then [base] else [])
      + Marks(Next(m, s[0], First(s[1..], after)), s[1..], after, base + 1)
  }

  /** The placeholders of a whole command. */
  function PlaceholdersOf(src: string): seq<int> {
    Marks(Code, src, NUL, 0)
  }

  function CharAt(src: string, i: nat): char {
    if i < |src| then src[i] else NUL
  }

  lemma MarksStep(m: Mode, src: string, i: nat)
    requires i < |src|
    ensures Marks(m, src[i..], NUL, i)
         == (if m == Code && src[i] == '?' then [i] else [])
            + Marks(Next(m, src[i], CharAt(src, i + 1)), src[i + 1..], NUL, i + 1)
  {
    assert src[i..][1..] == src[i + 1..];
  }

  /** At i the mode is m, and found holds exactly the placeholders before i. */
  ghost predicate Reached(src: string, found: seq<int>, m: Mode, i: nat) {
    i <= |src| && found + Marks(m, src[i..], NUL, i) == PlaceholdersOf(src)
  }

  lemma ReachedStep(src: string, found: seq<int>, m: Mode, i: nat)
    requires Reached(src, found, m, i) && i < |src|
    ensures var found' := if m == Code && src[i] == '?' then found + [i] else found;
      Reached(src, found', Next(m, src[i], CharAt(src, i + 1)), i + 1)
  {
    MarksStep(m, src, i);
    var rest := Marks(Next(m, src[i], CharAt(src, i + 1)), src[i + 1..], NUL, i + 1);
    assert found + ([i] + rest) == (found + [i]) + rest && found + ([] + rest) == found + rest;
  }

  lemma ReachedEnd(src: string, found: seq<int>, m: Mode)
    requires Reached(src, found, m, |src|)
    ensures found == PlaceholdersOf(src)
  {
    assert found + [] == found;
  }

  /** The three inner loops: to the last character of a comment or literal, or to the end. */
  method SkipTo(src: string, m: Mode, start: nat, ghost found: seq<int>) returns (i: nat)
    requires m.Block? || m.Line? || m.Literal?
    requires start < |src| && Reached(src, found, m, start + 1)
    ensures start < i <= |src|
    ensures i < |src| ==> Reached(src, found, Code, i + 1) && (m.Block? ==> src[i] == '*')
    ensures i == |src| ==> found == PlaceholdersOf(src)
  {
    hide Reached;
    i := start;
    while i < |src|
      invariant start <= i < |src| && Reached(src, found, m, i + 1)
    {
      i := i + 1;
      if i == |src| {
        ReachedEnd(src, found, m);
        return;
      }
      ReachedStep(src, found, m, i);
      match m {
        case Block =>
          if src[i] == '*' && CharAt(src, i + 1) == '/' { return; }
        case Line =>
          if src[i] == '\n' || src[i] == '/' { return; }
        case Literal(delim) =>
          if src[i] == '\\' {
            i := i + 1;
            if i == |src| {
              ReachedEnd(src, found, Escaped(delim));
              return;
            }
            ReachedStep(src, found, Escaped(delim), i);
          } else if src[i] == delim {
            return;
          }
      }
    }
  }

  method ParseStatement(src: string) returns (parsed: seq<int>, size: nat)
    ensures size == |PlaceholdersOf(src)| && parsed == PlaceholdersOf(src) + [-1]
  {
    hide Reached, PlaceholdersOf;
    var result: seq<int> := [];
    var i := 0;
    ReachedStart(src);
    if src == [] {
      ReachedEnd(src, [], Code);
    }
    while i < |src|
      invariant i < |src| ==> Reached(src, result, Code, i)
      invariant i >= |src| ==> result == PlaceholdersOf(src)
    {
      ReachedStep(src, result, Code, i);
      if src[i] == '/' {
        i := i + 1;
        if i == |src| {
          ReachedEnd(src, result, Slash);
          break;
        }
        ReachedStep(src, result, Slash, i);
        if src[i] == '*' {
          i := SkipTo(src, Block, i, result);
        }
        if CharAt(src, i) == '/' {
          i := SkipTo(src, Line, i, result);
        }
      } else if src[i] == '\'' || src[i] == '\"' {
        i := SkipTo(src, Literal(src[i]), i, result);
      } else if src[i] == '?' {
        result := result + [i];
      }
      i := i + 1;
      if i == |src| {
        ReachedEnd(src, result, Code);
      }
    }
    return result + [-1], |result|;
  }

  lemma ReachedStart(src: string)
    ensures Reached(src, [], Code, 0)
  {
    assert src[0..] == src;
  }

  // ---------- Comments and slashes ----------

  /** The text of a block comment contains no end of comment. */
  predicate Endless(body: string) {
    forall i :: 0 <= i < |body| - 1 ==> !(body[i] == '*' && body[i + 1] == '/')
  }

  /** Inside a block comment: whatever it contains is hidden, and its last slash is read as the start of another. */
  lemma {:induction false} BlockHides(body: string, rest: string, base: nat)
    requires Endless(body)
    ensures Marks(Block, body + "*/" + rest, NUL, base) == Marks(Slash, rest, NUL, base + |body| + 2)
    decreases |body|
  {
    var text := body + "*/" + rest;
    if body == "" {
      assert text == "*/" + rest && text[1..] == "/" + rest && text[1..][1..] == rest;
    } else {
      assert forall i :: 0 <= i < |body[1..]| ==> body[1..][i] == body[i + 1];
      BlockHides(body[1..], rest, base + 1);
      assert text[1..] == body[1..] + "*/" + rest;
    }
  }

  lemma BlockCommentHides(body: string, rest: string, base: nat)
    requires Endless(body)
    ensures Marks(Code, "/*" + body + "*/" + rest, NUL, base) == Marks(Slash, rest, NUL, base + |body| + 4)
  {
    var text, inner := "/*" + body + "*/" + rest, body + "*/" + rest;
    BlockHides(body, rest, base + 2);
    assert text[1..] == "*" + inner && text[1..][1..] == inner;
  }

  /** A placeholder right after a block comment, whatever the comment, is not found; later ones are. */
  lemma PlaceholderAfterCommentIsLost(body: string, rest: string, base: nat)
    requires Endless(body)
    ensures Marks(Code, "/*" + body + "*/?" + rest, NUL, base) == Marks(Code, rest, NUL, base + |body| + 5)
  {
    BlockCommentHides(body, "?" + rest, base);
    assert "/*" + body + "*/" + ("?" + rest) == "/*" + body + "*/?" + rest;
    assert ("?" + rest)[1..] == rest;
  }

  /** The characters that mean something in plain code, or just after a slash. */
  predicate Meaningful(c: char) {
    c in ['?', '/', '*', '\'', '\"']
  }

  /** The scan after a block comment finds what a scan of the following text from plain code finds. */
  ghost predicate ResumesPlainly(body: string, c: char, rest: string, base: nat) {
    Marks(Code, "/*" + body + "*/" + ([c] + rest), NUL, base) == Marks(Code, [c] + rest, NUL, base + |body| + 4)
  }

  lemma FirstStep(m: Mode, c: char, rest: string, base: nat)
    ensures Marks(m, [c] + rest, NUL, base)
         == (if m == Code && c == '?' then [base] else []) + Marks(Next(m, c, First(rest, NUL)), rest, NUL, base + 1)
  {
    assert ([c] + rest)[1..] == rest;
  }

  lemma AfterSlash(c: char, rest: string, base: nat)
    ensures Marks(Slash, [c] + rest, NUL, base) == Marks(Next(Slash, c, First(rest, NUL)), rest, NUL, base + 1)
    ensures Marks(Code, [c] + rest, NUL, base)
         == (if c == '?' then [base] else []) + Marks(Next(Code, c, First(rest, NUL)), rest, NUL, base + 1)
  {
    assert ([c] + rest)[1..] == rest;
  }

  lemma OneSlash(c: char, rest: string, base: nat)
    ensures Marks(Code, "/" + ([c] + rest), NUL, base) == Marks(Slash, [c] + rest, NUL, base + 1)
  {
    assert ("/" + ([c] + rest))[1..] == [c] + rest;
  }

  /** Just after a slash: a continuation that is scanned differently than in plain code. */
  lemma DerailsAfterSlash(c: char, base: nat) returns (rest: string)
    requires Meaningful(c)
    ensures Marks(Slash, [c] + rest, NUL, base) != Marks(Code, [c] + rest, NUL, base)
  {
    rest := if c == '/' then "a?" else "?";
    AfterSlash(c, rest, base);
    assert "a?"[1..] == "?" && "?"[1..] == "";
  }

  /**
   After a slash in plain code the scan goes on as in plain code, whatever follows the next
   character, if and only if that character is none of ? / * ' and ".  With / or * the slash
   begins a comment; the other three lose their meaning.
   */
  lemma PlainAfterSlash(c: char, base: nat)
    ensures (forall rest :: Marks(Code, "/" + ([c] + rest), NUL, base) == Marks(Code, [c] + rest, NUL, base + 1))
       <==> !Meaningful(c)
  {
    if Meaningful(c) {
      var rest := DerailsAfterSlash(c, base + 1);
      OneSlash(c, rest, base);
    } else {
      forall rest ensures Marks(Code, "/" + ([c] + rest), NUL, base) == Marks(Code, [c] + rest, NUL, base + 1) {
        OneSlash(c, rest, base);
        AfterSlash(c, rest, base + 1);
      }
    }
  }

  /** After a division sign a placeholder is not found, and one inside a literal is. */
  lemma PlaceholderAfterDivision()
    ensures PlaceholdersOf("6/?") == [] && PlaceholdersOf("6/'?'") == [3]
  {
  }

  lemma NoMarks(m: Mode, base: nat)
    ensures Marks(m, "", NUL, base) == []
  {
  }

  /** A continuation that shows the difference. */
  lemma DerailsAfterComment(body: string, c: char, base: nat) returns (rest: string)
    requires Endless(body) && Meaningful(c)
    ensures !ResumesPlainly(body, c, rest, base)
  {
    rest := DerailsAfterSlash(c, base + |body| + 4);
    BlockCommentHides(body, [c] + rest, base);
  }

  /**
   After any block comment the scan goes on as in plain code, whatever follows the next
   character, if and only if that character is none of ? / * ' and ".
   */
  lemma PlainAfterComment(body: string, c: char, base: nat)
    requires Endless(body)
    ensures (forall rest :: ResumesPlainly(body, c, rest, base)) <==> !Meaningful(c)
  {
    if Meaningful(c) {
      var rest := DerailsAfterComment(body, c, base);
    } else {
      forall rest ensures ResumesPlainly(body, c, rest, base) {
        BlockCommentHides(body, [c] + rest, base);
        AfterSlash(c, rest, base + |body| + 4);
      }
    }
  }

  /** After a comment the quote that opens a literal is passed over, and the question mark in it is found. */
  lemma PlaceholderInLiteral()
    ensures PlaceholdersOf("/*c*/'?'") == [6] && PlaceholdersOf("'?'") == []
  {
    BlockCommentHides("c", "'?'", 0);
    assert "/*" + "c" + "*/" + "'?'" == "/*c*/'?'";
    assert "'?'"[1..] == "?'" && "?'"[1..] == "'" && "'"[1..] == "";
    assert Marks(Code, "?'", NUL, 6) == [6];
    assert Marks(Literal('\''), "?'", NUL, 1) == [];
  }

  /** A line comment ends at a newline or a slash, and hides what is before. */
  lemma {:induction false} LineHides(body: string, end: char, rest: string, base: nat)
    requires '\n' !in body && '/' !in body && (end == '\n' || end == '/')
    ensures Marks(Line, body + [end] + rest, NUL, base) == Marks(Code, rest, NUL, base + |body| + 1)
    decreases |body|
  {
    var text := body + [end] + rest;
    if body == "" {
      assert text == [end] + rest && text[1..] == rest;
    } else {
      LineHides(body[1..], end, rest, base + 1);
      assert text[1..] == body[1..] + [end] + rest;
    }
  }

  // ---------- The scan in terms of the text alone ----------

  /** Outside literals and comments every other character is passed over, and a question mark is a placeholder. */
  lemma PlainCharacter(c: char, rest: string, base: nat)
    requires c != '/' && c != '\'' && c != '\"'
    ensures Marks(Code, [c] + rest, NUL, base) == (if c == '?' then [base] else []) + Marks(Code, rest, NUL, base + 1)
  {
    FirstStep(Code, c, rest, base);
  }

  /** A slash that begins no comment takes the next character with it, whatever it is. */
  lemma SlashSwallows(c: char, rest: string, base: nat)
    requires c != '/' && c != '*'
    ensures Marks(Code, "/" + ([c] + rest), NUL, base) == Marks(Code, rest, NUL, base + 2)
  {
    OneSlash(c, rest, base);
    AfterSlash(c, rest, base + 1);
  }

  /** From its two slashes a line comment hides everything up to a newline or another slash. */
  lemma LineCommentHides(body: string, end: char, rest: string, base: nat)
    requires '\n' !in body && '/' !in body && (end == '\n' || end == '/')
    ensures Marks(Code, "//" + (body + [end] + rest), NUL, base) == Marks(Code, rest, NUL, base + |body| + 3)
  {
    var text := body + [end] + rest;
    assert "//" + text == "/" + (['/'] + text);
    OneSlash('/', text, base);
    AfterSlash('/', text, base + 1);
    LineHides(body, end, rest, base + 2);
  }

  /** A whole block comment is scanned like a single slash. */
  lemma BlockCommentIsSlash(body: string, rest: string, base: nat)
    requires Endless(body)
    ensures Marks(Code, "/*" + body + "*/" + rest, NUL, base) == Marks(Code, "/" + rest, NUL, base + |body| + 3)
  {
    BlockCommentHides(body, rest, base);
    assert ("/" + rest)[1..] == rest;
  }

  /** The body of a literal in quotes d: a backslash takes the next character with it, and no other d occurs. */
  predicate Contained(body: string, d: char)
    decreases |body|
  {
    if body == "" then true
    else if body[0] == '\\' then |body| > 1 && Contained(body[2..], d)
    else body[0] != d && Contained(body[1..], d)
  }

  /** Inside a literal, up to the text after its body. */
  lemma {:induction false} ContainedHides(d: char, body: string, rest: string, base: nat)
    requires d != '\\' && Contained(body, d)
    ensures Marks(Literal(d), body + rest, NUL, base) == Marks(Literal(d), rest, NUL, base + |body|)
    decreases |body|
  {
    if body == "" {
      assert body + rest == rest;
    } else if body[0] == '\\' {
      ContainedHides(d, body[2..], rest, base + 2);
      var tail := body[2..] + rest;
      assert body + rest == [body[0]] + ([body[1]] + tail);
      FirstStep(Literal(d), body[0], [body[1]] + tail, base);
      FirstStep(Escaped(d), body[1], tail, base + 1);
    } else {
      ContainedHides(d, body[1..], rest, base + 1);
      assert body + rest == [body[0]] + (body[1..] + rest);
      FirstStep(Literal(d), body[0], body[1..] + rest, base);
    }
  }

  /** A literal in single or in double quotes is hidden as a whole. */
  lemma LiteralHides(d: char, body: string, rest: string, base: nat)
    requires (d == '\'' || d == '\"') && Contained(body, d)
    ensures Marks(Code, [d] + (body + ([d] + rest)), NUL, base) == Marks(Code, rest, NUL, base + |body| + 2)
  {
    FirstStep(Code, d, body + ([d] + rest), base);
    ContainedHides(d, body, [d] + rest, base + 1);
    FirstStep(Literal(d), d, rest, base + 1 + |body|);
  }

  /** A literal that is not closed hides the rest of the command, a last backslash included. */
  lemma OpenLiteralHides(d: char, body: string, base: nat)
    requires (d == '\'' || d == '\"') && Contained(body, d)
    ensures Marks(Code, [d] + body, NUL, base) == Marks(Code, [d] + (body + "\\"), NUL, base) == []
  {
    FirstStep(Code, d, body, base);
    ContainedHides(d, body, "", base + 1);
    assert body + "" == body;
    FirstStep(Code, d, body + "\\", base);
    ContainedHides(d, body, "\\", base + 1);
  }

  lemma {:induction false} InsideOpenComment(m: Mode, body: string, base: nat)
    requires (m == Block && Endless(body)) || (m == Line && '\n' !in body && '/' !in body)
    ensures Marks(m, body, NUL, base) == []
    decreases |body|
  {
    if body != "" {
      assert m == Block ==> forall i :: 0 <= i < |body[1..]| ==> body[1..][i] == body[i + 1];
      InsideOpenComment(m, body[1..], base + 1);
    }
  }

  /** So does a comment that is not closed, and nothing is found in a last slash. */
  lemma OpenCommentHides(body: string, base: nat)
    ensures Endless(body) ==> Marks(Code, "/*" + body, NUL, base) == []
    ensures '\n' !in body && '/' !in body ==> Marks(Code, "//" + body, NUL, base) == []
    ensures Marks(Code, "/", NUL, base) == []
  {
    assert "/*" + body == "/" + (['*'] + body) && "//" + body == "/" + (['/'] + body);
    OneSlash('*', body, base);
    OneSlash('/', body, base);
    AfterSlash('*', body, base + 1);
    AfterSlash('/', body, base + 1);
    if Endless(body) {
      InsideOpenComment(Block, body, base + 2);
    }
    if '\n' !in body && '/' !in body {
      InsideOpenComment(Line, body, base + 2);
    }
  }
}
