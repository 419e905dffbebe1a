/**
 Rescanning a spliced command: exactly which arguments add no placeholder to it, and which
 never let the scanner leave their literal before its last quote.
 */
module PlaceholderRescan {
  import opened Common
  import opened Placeholders
  import opened ParameterInsertion

  // ---------- Scanning a concatenation ----------

  lemma {:induction false} RunConcat(m: Mode, a: string, b: string, after: char)
    ensures Run(m, a + b, after) == Run(Run(m, a, First(b, after)), b, after)
    decreases |a|
  {
    if a == [] {
      assert a + b == b;
    } else {
      assert (a + b)[1..] == a[1..] + b && (a + b)[0] == a[0];
      RunConcat(Next(m, a[0], First(a[1..] + b, after)), a[1..], b, after);
    }
  }

  lemma {:induction false} MarksConcat(m: Mode, a: string, b: string, after: char, base: nat)
    ensures Marks(m, a + b, after, base)
         == Marks(m, a, First(b, after), base) + Marks(Run(m, a, First(b, after)), b, after, base + |a|)
    decreases |a|
  {
    if a == [] {
      assert a + b == b;
    } else {
      assert (a + b)[1..] == a[1..] + b && (a + b)[0] == a[0];
      assert First(a[1..], First(b, after)) == First(a[1..] + b, after);
      var next := Next(m, a[0], First(a[1..] + b, after));
      MarksConcat(next, a[1..], b, after, base + 1);
      var head := if m == Code && a[0] == '?' then [base] else [];
      var x := Marks(next, a[1..], First(b, after), base + 1);
      var y := Marks(Run(m, a, First(b, after)), b, after, base + |a|);
      assert head + (x + y) == (head + x) + y;
    }
  }

  /** The lookahead only matters when it is a slash. */
  lemma {:induction false} LookaheadMatters(m: Mode, s: string, x: char, y: char, base: nat)
    requires x != '/' && y != '/'
    ensures Run(m, s, x) == Run(m, s, y) && Marks(m, s, x, base) == Marks(m, s, y, base)
    decreases |s|
  {
    if s != [] {
      LookaheadMatters(Next(m, s[0], First(s[1..], x)), s[1..], x, y, base + 1);
      assert Next(m, s[0], First(s[1..], x)) == Next(m, s[0], First(s[1..], y));
    }
  }

  lemma {:induction false} MarksShift(m: Mode, s: string, after: char, base: nat, other: nat)
    ensures |Marks(m, s, after, base)| == |Marks(m, s, after, other)|
    decreases |s|
  {
    if s != [] {
      MarksShift(Next(m, s[0], First(s[1..], after)), s[1..], after, base + 1, other + 1);
    }
  }

  // ---------- Which arguments stay inside their literal ----------

  function InLiteral(escaped: bool): Mode {
    if escaped then Escaped(QUOTE) else Literal(QUOTE)
  }

  predicate Inside(m: Mode) {
    m == InLiteral(false) || m == InLiteral(true)
  }

  /** The scanner is inside the literal after every prefix of arg, and back in code after the last quote. */
  ghost predicate StaysInside(escaped: bool, arg: string, after: char) {
    && (forall k :: 0 <= k <= |arg| ==> Inside(Run(InLiteral(escaped), Doubled(arg[..k]), QUOTE)))
    && Run(InLiteral(escaped), Doubled(arg) + [QUOTE], after) == Code
  }

  /** Each backslash that is not itself escaped comes before a character other than a quote. */
  predicate EscapesPaired(escaped: bool, arg: string)
    decreases |arg|
  {
    if arg == [] then !escaped
    else if escaped then arg[0] != QUOTE && EscapesPaired(false, arg[1..])
    else EscapesPaired(arg[0] == '\\', arg[1..])
  }

  lemma {:induction false} NoBackslashesPaired(arg: string)
    requires '\\' !in arg
    ensures EscapesPaired(false, arg)
  {
    if arg != [] {
      NoBackslashesPaired(arg[1..]);
    }
  }

  predicate BreaksOut(escaped: bool, c: char) {
    escaped && c == QUOTE
  }

  /** One character of the argument, doubled if it is a quote. */
  lemma DoubledCharacter(escaped: bool, c: char, rest: string, after: char, base: nat)
    ensures var text := (if c == QUOTE then [QUOTE, QUOTE] else [c]) + rest;
      var m := if BreaksOut(escaped, c) then Code else InLiteral(!escaped && c == '\\');
      && Run(InLiteral(escaped), text, after) == Run(m, rest, after)
      && Marks(InLiteral(escaped), text, after, base) == Marks(m, rest, after, base + if c == QUOTE then 2 else 1)
  {
    if c == QUOTE {
      var text := [QUOTE, QUOTE] + rest;
      assert text[1..] == [QUOTE] + rest && text[1..][1..] == rest;
    } else {
      assert ([c] + rest)[1..] == rest;
    }
  }

  lemma StaysInsideStep(escaped: bool, arg: string, after: char)
    requires arg != [] && !BreaksOut(escaped, arg[0])
    ensures StaysInside(escaped, arg, after) <==> StaysInside(!escaped && arg[0] == '\\', arg[1..], after)
  {
    hide Run, Marks;
    var next := !escaped && arg[0] == '\\';
    var rest := Doubled(arg[1..]) + [QUOTE];
    assert Doubled(arg) + [QUOTE] == (if arg[0] == QUOTE then [QUOTE, QUOTE] else [arg[0]]) + rest;
    DoubledCharacter(escaped, arg[0], rest, after, 0);
    forall k | 0 <= k <= |arg[1..]|
      ensures Run(InLiteral(escaped), Doubled(arg[..k + 1]), QUOTE)
           == Run(InLiteral(next), Doubled(arg[1..][..k]), QUOTE)
    {
      assert arg[..k + 1][1..] == arg[1..][..k];
      DoubledCharacter(escaped, arg[0], Doubled(arg[1..][..k]), QUOTE, 0);
    }
    if StaysInside(escaped, arg, after) {
      forall k | 0 <= k <= |arg[1..]| ensures Inside(Run(InLiteral(next), Doubled(arg[1..][..k]), QUOTE)) {
        assert Inside(Run(InLiteral(escaped), Doubled(arg[..k + 1]), QUOTE));
      }
    } else if StaysInside(next, arg[1..], after) {
      forall k | 0 <= k <= |arg| ensures Inside(Run(InLiteral(escaped), Doubled(arg[..k]), QUOTE)) {
        if k == 0 {
          EmptyRun(escaped, arg);
        } else {
          assert Inside(Run(InLiteral(next), Doubled(arg[1..][..k - 1]), QUOTE));
        }
      }
    }
  }

  lemma EmptyRun(escaped: bool, arg: string)
    ensures Run(InLiteral(escaped), Doubled(arg[..0]), QUOTE) == InLiteral(escaped)
  {
  }

  lemma EmptyStays(escaped: bool, arg: string, after: char)
    requires arg == []
    ensures StaysInside(escaped, arg, after) <==> !escaped
  {
    assert Doubled(arg) == [] && Doubled(arg) + [QUOTE] == [QUOTE];
    assert Run(InLiteral(escaped), [QUOTE], after) == if escaped then InLiteral(false) else Code;
    forall k | 0 <= k <= |arg| ensures Inside(Run(InLiteral(escaped), Doubled(arg[..k]), QUOTE)) {
      EmptyRun(escaped, arg);
    }
  }

  /** The scanner keeps to an inserted literal if and only if the backslashes of its argument are paired. */
  lemma {:induction false} StaysInsideExactly(escaped: bool, arg: string, after: char)
    ensures StaysInside(escaped, arg, after) <==> EscapesPaired(escaped, arg)
    decreases |arg|
  {
    if arg == [] {
      EmptyStays(escaped, arg, after);
    } else if BreaksOut(escaped, arg[0]) {
      DoubledCharacter(escaped, QUOTE, [], QUOTE, 0);
      assert Doubled(arg[..1]) == [QUOTE, QUOTE] + [];
      assert !Inside(Run(InLiteral(escaped), Doubled(arg[..1]), QUOTE));
    } else {
      StaysInsideStep(escaped, arg, after);
      StaysInsideExactly(!escaped && arg[0] == '\\', arg[1..], after);
    }
  }

  lemma {:induction false} QuotedHides(escaped: bool, arg: string, after: char, base: nat)
    requires EscapesPaired(escaped, arg)
    ensures Run(InLiteral(escaped), Doubled(arg) + [QUOTE], after) == Code
    ensures Marks(InLiteral(escaped), Doubled(arg) + [QUOTE], after, base) == []
    decreases |arg|
  {
    if arg == [] {
      assert Doubled(arg) + [QUOTE] == [QUOTE];
    } else {
      var rest := Doubled(arg[1..]) + [QUOTE];
      QuotedHides(!escaped && arg[0] == '\\', arg[1..], after, base + if arg[0] == QUOTE then 2 else 1);
      assert Doubled(arg) + [QUOTE] == (if arg[0] == QUOTE then [QUOTE, QUOTE] else [arg[0]]) + rest;
      DoubledCharacter(escaped, arg[0], rest, after, base);
    }
  }

  // ---------- The first placeholder ----------

  lemma {:induction false} FirstMark(m: Mode, s: string, after: char, base: nat)
    requires Marks(m, s, after, base) != []
    ensures var p := Marks(m, s, after, base)[0] - base;
      && 0 <= p < |s| && s[p] == '?'
      && Marks(m, s[..p], '?', base) == [] && Run(m, s[..p], '?') == Code
      && Marks(m, s, after, base)[1..] == Marks(Code, s[p + 1..], after, base + p + 1)
      && Run(m, s, after) == Run(Code, s[p + 1..], after)
    decreases |s|
  {
    if m == Code && s[0] == '?' {
      assert s[..0] == [];
    } else {
      var next := Next(m, s[0], First(s[1..], after));
      FirstMark(next, s[1..], after, base + 1);
      var p := Marks(m, s, after, base)[0] - base;
      WithoutFirst(s, p);
    }
  }

  lemma WithoutFirst(s: string, p: nat)
    requires 0 < p < |s| && s[p] == '?'
    ensures s[..p][1..] == s[1..][..p - 1] && s[1..][p..] == s[p + 1..]
    ensures First(s[..p][1..], '?') == s[1]
  {
  }

  // ---------- Harmless arguments ----------

  /** The scanner passes over text from code to code, and meets no placeholder. */
  predicate Quiet(text: string) {
    Run(Code, text, NUL) == Code && Marks(Code, text, NUL, 0) == []
  }

  predicate Harmless(args: seq<string>, nullString: Option<string>) {
    forall i :: 0 <= i < |args| ==> Quiet(Parameter(args[i], nullString))
  }

  /** What follows a text matters only if it ends in a star. */
  lemma {:induction false} FollowingMatters(m: Mode, s: string, x: char, y: char, base: nat)
    requires s != [] && s[|s| - 1] != '*'
    ensures Run(m, s, x) == Run(m, s, y) && Marks(m, s, x, base) == Marks(m, s, y, base)
    decreases |s|
  {
    if |s| > 1 {
      FollowingMatters(Next(m, s[0], s[1]), s[1..], x, y, base + 1);
    } else {
      assert s[1..] == [] && Next(m, s[0], x) == Next(m, s[0], y);
    }
  }

  lemma NullQuiet()
    ensures Quiet(NULL_TEXT)
  {
    assert NULL_TEXT[1..] == "ULL" && "ULL"[1..] == "LL" && "LL"[1..] == "L";
    assert Run(Code, "LL", NUL) == Code && Marks(Code, "LL", NUL, 2) == [];
  }

  /** The arguments that never leave their literal are harmless, and so is the null string. */
  lemma PairedHarmless(args: seq<string>, nullString: Option<string>)
    requires forall i :: 0 <= i < |args| ==> nullString == Some(args[i]) || EscapesPaired(false, args[i])
    ensures Harmless(args, nullString)
  {
    hide Quiet, EscapesPaired;
    NullQuiet();
    forall i | 0 <= i < |args| ensures Quiet(Parameter(args[i], nullString)) {
      if nullString != Some(args[i]) {
        PairedQuiet(args[i]);
      }
    }
  }

  lemma PairedQuiet(arg: string)
    requires EscapesPaired(false, arg)
    ensures Quiet(Quoted(arg))
  {
    QuotedHides(false, arg, NUL, 1);
    assert Quoted(arg)[1..] == Doubled(arg) + [QUOTE];
  }

  /** The argument \'/' leaves its literal, and is harmless all the same. */
  lemma QuietUnpaired()
    ensures !EscapesPaired(false, "\\'/'") && Quiet(Quoted("\\'/'"))
  {
    var arg := "\\'/'";
    assert arg[1..] == "'/'" && "'/'"[1..] == "/'" && "/'"[1..] == "'" && "'"[1..] == "";
    assert Doubled("/'") == "/''";
    assert Quoted(arg) == "'\\''/'''";
    QuietText();
  }

  lemma QuietText()
    ensures Quiet("'\\''/'''")
  {
    var text := "'\\''/'''";
    assert text[1..] == "\\''/'''" && text[1..][1..] == "''/'''" && "''/'''"[1..] == "'/'''" && "'/'''"[1..] == "/'''";
    assert "/'''"[1..] == "'''" && "'''"[1..] == "''" && "''"[1..] == "'";
    assert Run(Slash, "'''", NUL) == Code && Marks(Slash, "'''", NUL, 5) == [];
    assert Run(Literal(QUOTE), "'/'''", NUL) == Code && Marks(Literal(QUOTE), "'/'''", NUL, 3) == [];
  }

  lemma ParameterHides(arg: string, nullString: Option<string>, after: char, base: nat)
    requires Quiet(Parameter(arg, nullString))
    ensures var text := Parameter(arg, nullString);
      && text != [] && text[0] != '/'
      && Run(Code, text, after) == Code && Marks(Code, text, after, base) == []
  {
    hide Run, Marks, Doubled;
    var text := Parameter(arg, nullString);
    assert text[|text| - 1] != '*';
    FollowingMatters(Code, text, after, NUL, base);
    MarksShift(Code, text, NUL, base, 0);
  }

  // ---------- Rescanning ----------

  /** From code, over the text up to a placeholder and over its parameter: no placeholder, and code again. */
  lemma PartHides(text: string, arg: string, nullString: Option<string>, rest: string, base: nat)
    requires Quiet(Parameter(arg, nullString))
    requires Run(Code, text, '?') == Code && Marks(Code, text, '?', base) == []
    ensures var all := text + Parameter(arg, nullString) + rest;
      && Run(Code, all, NUL) == Run(Code, rest, NUL)
      && |Marks(Code, all, NUL, base)| == |Marks(Code, rest, NUL, base)|
  {
    hide Run, Marks, Quiet, Quoted;
    var parameter := Parameter(arg, nullString);
    var tail := parameter + rest;
    ParameterHides(arg, nullString, First(rest, NUL), base + |text|);
    assert text + parameter + rest == text + tail && First(tail, NUL) == parameter[0];
    LookaheadMatters(Code, text, '?', parameter[0], base);
    RunConcat(Code, text, tail, NUL);
    MarksConcat(Code, text, tail, NUL, base);
    RunConcat(Code, parameter, rest, NUL);
    MarksConcat(Code, parameter, rest, NUL, base + |text|);
    MarksShift(Code, rest, NUL, base + |text| + |parameter|, base);
  }

  lemma {:induction false} SpliceHides(
      cmd: string, start: nat, positions: seq<int>, args: seq<string>, nullString: Option<string>)
    requires start <= |cmd| && positions == Marks(Code, cmd[start..], NUL, start) && |positions| == |args|
    requires Harmless(args, nullString) && Ascending(positions, start, |cmd|)
    ensures var sql := Splice(cmd, start, positions, args, nullString);
      Marks(Code, sql, NUL, 0) == [] && Run(Code, sql, NUL) == Run(Code, cmd[start..], NUL)
    decreases |args|
  {
    hide Run, Marks, Quiet, Parameter;
    if args != [] {
      FirstMark(Code, cmd[start..], NUL, start);
      var p := positions[0];
      assert cmd[start..][..p - start] == cmd[start..p] && cmd[start..][p - start + 1..] == cmd[p + 1..];
      SpliceHides(cmd, p + 1, positions[1..], args[1..], nullString);
      MarksShift(Code, cmd[start..p], '?', start, 0);
      PartHides(cmd[start..p], args[0], nullString, Splice(cmd, p + 1, positions[1..], args[1..], nullString), 0);
    } else {
      MarksShift(Code, cmd[start..], NUL, start, 0);
    }
  }

  /**
   Rescanning the output of InsertParam finds no placeholder, and ends in the mode in
   which scanning the command ended.
   */
  lemma RescanFindsNothing(cmd: string, args: seq<string>, nullString: Option<string>)
    requires |args| == |PlaceholdersOf(cmd)| && Harmless(args, nullString)
    ensures Ascending(PlaceholdersOf(cmd), 0, |cmd|)
    ensures var sql := Splice(cmd, 0, PlaceholdersOf(cmd), args, nullString);
      PlaceholdersOf(sql) == [] && Run(Code, sql, NUL) == Run(Code, cmd, NUL)
  {
    hide Run, Marks;
    assert cmd[0..] == cmd;
    PlaceholdersAscend(cmd);
    SpliceHides(cmd, 0, PlaceholdersOf(cmd), args, nullString);
  }

  ghost predicate RescansClean(cmd: string, args: seq<string>, nullString: Option<string>)
    requires |args| == |PlaceholdersOf(cmd)|
  {
    && Ascending(PlaceholdersOf(cmd), 0, |cmd|)
    && PlaceholdersOf(Splice(cmd, 0, PlaceholdersOf(cmd), args, nullString)) == []
  }

  lemma HarmlessRescans(cmd: string, args: seq<string>, nullString: Option<string>)
    requires |args| == |PlaceholdersOf(cmd)| && Harmless(args, nullString)
    ensures RescansClean(cmd, args, nullString)
  {
    RescanFindsNothing(cmd, args, nullString);
  }

  /** Whatever the command, this argument can be used with others that are harmless. */
  ghost predicate AlwaysClean(arg: string, nullString: Option<string>) {
    forall cmd: string, args: seq<string> | |args| == |PlaceholdersOf(cmd)| ::
      (forall i :: 0 <= i < |args| ==> args[i] == arg || Quiet(Parameter(args[i], nullString)))
      ==> RescansClean(cmd, args, nullString)
  }

  /** The modes in which a literal can end that is scanned from code. */
  predicate Final(m: Mode) {
    m == Code || m == Block || m == Line || m == Literal(QUOTE) || m == Literal('\"')
  }

  predicate Scanned(m: Mode) {
    Final(m) || m == Slash || m == Escaped(QUOTE) || m == Escaped('\"')
  }

  lemma {:induction false} RunScanned(m: Mode, s: string, after: char)
    requires Scanned(m)
    ensures Scanned(Run(m, s, after))
    decreases |s|
  {
    if s != [] {
      RunScanned(Next(m, s[0], First(s[1..], after)), s[1..], after);
    }
  }

  lemma QuotedEndsFinal(arg: string)
    ensures Final(Run(Code, Quoted(arg), NUL))
  {
    hide Run, Doubled;
    var text := [QUOTE] + Doubled(arg);
    assert Quoted(arg) == text + [QUOTE];
    RunConcat(Code, text, [QUOTE], NUL);
    RunScanned(Code, text, QUOTE);
    LastQuote(Run(Code, text, QUOTE));
  }

  lemma LastQuote(m: Mode)
    ensures Run(m, [QUOTE], NUL) == Next(m, QUOTE, NUL)
  {
  }

  /** What the scanner takes for a placeholder when it comes to a literal with this text in mode m. */
  function Bait(m: Mode): string {
    match m
    case Block => "*/a?"
    case Line => "/?"
    case Literal(d) => if d == QUOTE then "?" else "\"?"
    case _ => ""
  }

  /** The literal, with which a command can go on after a parameter that ends in mode m. */
  function Trap(m: Mode): string {
    if m == Code then "" else [QUOTE] + (Bait(m) + [QUOTE])
  }

  lemma BaitTaken(m: Mode, base: nat)
    requires Final(m) && m != Code
    ensures Marks(Next(m, QUOTE, NUL), Bait(m) + [QUOTE], NUL, base) != []
  {
    hide Marks;
    FirstStep(Code, '?', "'", base);
    FirstStep(Code, '?', "'", base + 1);
    match m {
      case Block =>
        FirstStep(Block, '*', "/a?'", base);
        FirstStep(Code, '/', "a?'", base + 1);
        FirstStep(Slash, 'a', "?'", base + 2);
        FirstStep(Code, '?', "'", base + 3);
        assert Bait(m) + [QUOTE] == ['*'] + "/a?'" && "/a?'" == ['/'] + "a?'" && "a?'" == ['a'] + "?'";
      case Line =>
        FirstStep(Line, '/', "?'", base);
        assert Bait(m) + [QUOTE] == ['/'] + "?'";
      case Literal(d) =>
        FirstStep(Literal(d), d, "?'", base);
        assert Bait(m) + [QUOTE] == if d == QUOTE then "?'" else [d] + "?'";
    }
    assert "?'" == ['?'] + "'";
  }

  lemma TrapSprings(m: Mode, base: nat)
    requires Final(m) && m != Code
    ensures Marks(m, Trap(m), NUL, base) != []
  {
    hide Bait;
    BaitTaken(m, base + 1);
    assert Trap(m)[1..] == Bait(m) + [QUOTE];
  }

  lemma BaitPaired(m: Mode)
    ensures EscapesPaired(false, Bait(m)) && Doubled(Bait(m)) == Bait(m)
  {
    assert "*/a?"[1..] == "/a?" && "/a?"[1..] == "a?" && "a?"[1..] == "?" && "?"[1..] == "";
    assert "/?"[1..] == "?" && "\"?"[1..] == "?";
  }

  lemma TrapHides(m: Mode)
    requires Final(m)
    ensures Marks(Code, Trap(m), NUL, 1) == [] && (Trap(m) == "" || Trap(m)[0] == QUOTE)
  {
    if m != Code {
      BaitPaired(m);
      PairedQuiet(Bait(m));
      hide Bait, Run, EscapesPaired, Doubled;
      MarksShift(Code, Trap(m), NUL, 0, 1);
    }
  }

  lemma TrapCommand(m: Mode, arg: string, nullString: Option<string>)
    requires Final(m)
    ensures var cmd := "?" + Trap(m);
      && PlaceholdersOf(cmd) == [0] && Ascending([0], 0, |cmd|)
      && Splice(cmd, 0, [0], [arg], nullString) == Parameter(arg, nullString) + Trap(m)
  {
    hide Trap, Parameter;
    var cmd := "?" + Trap(m);
    TrapHides(m);
    assert cmd[1..] == Trap(m) && cmd[0] == '?';
    assert [0][1..] == [] && [arg][1..] == [];
  }

  /** An argument that is not harmless spoils a command that has one placeholder. */
  lemma NotQuietSpoils(arg: string, nullString: Option<string>) returns (cmd: string)
    requires !Quiet(Parameter(arg, nullString))
    ensures |PlaceholdersOf(cmd)| == 1 && !RescansClean(cmd, [arg], nullString)
  {
    hide Marks, Run, Trap, Splice;
    NullQuiet();
    var text := Parameter(arg, nullString);
    QuotedEndsFinal(arg);
    var m := Run(Code, text, NUL);
    cmd := "?" + Trap(m);
    TrapCommand(m, arg, nullString);
    TrapHides(m);
    var after := First(Trap(m), NUL);
    MarksConcat(Code, text, Trap(m), NUL, 0);
    FollowingMatters(Code, text, after, NUL, 0);
    if m != Code {
      TrapSprings(m, |text|);
    }
  }

  /** An argument can be used with any command and other harmless arguments if and only if it is harmless itself. */
  lemma HarmlessExactly(arg: string, nullString: Option<string>)
    ensures AlwaysClean(arg, nullString) <==> Quiet(Parameter(arg, nullString))
  {
    hide Quiet, RescansClean, PlaceholdersOf, Parameter;
    if Quiet(Parameter(arg, nullString)) {
      forall cmd: string, args: seq<string>
        | && |args| == |PlaceholdersOf(cmd)|
          && forall i :: 0 <= i < |args| ==> args[i] == arg || Quiet(Parameter(args[i], nullString))
        ensures RescansClean(cmd, args, nullString)
      {
        HarmlessRescans(cmd, args, nullString);
      }
    } else {
      var cmd := NotQuietSpoils(arg, nullString);
      assert forall i :: 0 <= i < |[arg]| ==> [arg][i] == arg;
    }
  }

  /** Parsing a command, checking the number of arguments, and inserting them, as exec does. */
  method CommandSent(cmd: string, args: seq<string>, nullString: Option<string>, spare: nat)
    returns (ok: bool, sql: string)
    requires spare <= 1
    ensures ok <==> |args| == |PlaceholdersOf(cmd)|
    ensures ok ==> Ascending(PlaceholdersOf(cmd), 0, |cmd|)
    ensures ok ==> sql == Splice(cmd, 0, PlaceholdersOf(cmd), args, nullString)
    ensures ok && Harmless(args, nullString) ==> PlaceholdersOf(sql) == []
  {
    hide Splice, PlaceholdersOf, Harmless, Ascending;
    var parsed, size := ParseStatement(cmd);
    if |args| != size {
      return false, "";
    }
    PlaceholdersAscend(cmd);
    assert parsed[..|args|] == PlaceholdersOf(cmd);
    if Harmless(args, nullString) {
      RescanFindsNothing(cmd, args, nullString);
    }
    if size > 0 {
      var buffer, n := InsertParam(cmd, parsed, nullString, args, spare);
      return true, buffer[..n];
    } else {
      SpliceEnd(cmd, 0, PlaceholdersOf(cmd), args, nullString);
      return true, cmd;
    }
  }

  /** The scanner gives the positions that InsertParam asks for. */
  lemma PlaceholdersAscend(cmd: string)
    ensures Ascending(PlaceholdersOf(cmd), 0, |cmd|)
  {
    assert cmd[0..] == cmd;
    MarksAscend(cmd, 0, PlaceholdersOf(cmd));
  }

  lemma {:induction false} MarksAscend(cmd: string, start: nat, positions: seq<int>)
    requires start <= |cmd| && positions == Marks(Code, cmd[start..], NUL, start)
    ensures Ascending(positions, start, |cmd|)
    decreases |positions|
  {
    hide Run, Marks;
    if positions != [] {
      FirstMark(Code, cmd[start..], NUL, start);
      var p := positions[0];
      assert cmd[start..][p - start + 1..] == cmd[p + 1..];
      MarksAscend(cmd, p + 1, positions[1..]);
    }
  }

  lemma TwoPlaceholders()
    ensures PlaceholdersOf("?,?") == [0, 2]
    ensures Splice("?,?", 0, [0, 2], ["\\", "?"], None) == "'\\','?'"
  {
    hide Marks;
    var cmd, args := "?,?", ["\\", "?"];
    assert cmd[0..] == cmd && cmd[3..] == "";
    NoMarks(Code, 3);
    MarksStep(Code, cmd, 2);
    MarksStep(Code, cmd, 1);
    MarksStep(Code, cmd, 0);
    assert [0, 2][1..] == [2] && args[1..] == ["?"];
    assert Splice(cmd, 1, [2], ["?"], None) == ",'?'";
  }

  /** A lone backslash and a question mark as the arguments of ?,? : the question mark is taken for a placeholder. */
  lemma BackslashBreaksOut()
    ensures PlaceholdersOf("?,?") == [0, 2]
    ensures Splice("?,?", 0, [0, 2], ["\\", "?"], None) == "'\\','?'"
    ensures PlaceholdersOf("'\\','?'") == [5]
  {
    hide Marks;
    var sql := "'\\','?'";
    TwoPlaceholders();
    assert sql[0..] == sql && sql[7..] == "";
    NoMarks(Literal(QUOTE), 7);
    MarksStep(Code, sql, 6);
    MarksStep(Code, sql, 5);
    MarksStep(Literal(QUOTE), sql, 4);
    MarksStep(Literal(QUOTE), sql, 3);
    MarksStep(Escaped(QUOTE), sql, 2);
    MarksStep(Literal(QUOTE), sql, 1);
    MarksStep(Code, sql, 0);
  }
}
