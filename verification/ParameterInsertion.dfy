/**
 Splicing quoted arguments into a command: dbi_Mysql_InsertParam and dbi_Sqlite_InsertParam,
 which differ in one spare byte of their first buffer, and the quoting helpers of
 sqlite/generic/sqlite.c.  Arguments are Tcl strings, whose bytes contain no NUL.
 */
module ParameterInsertion {
  import opened Common
  import opened Placeholders

  const QUOTE := '\''

  // ---------- Quoting ----------

  function QuoteCount(s: string): nat {
    if s == [] then 0 else (if s[0] == QUOTE then 1 else 0) + QuoteCount(s[1..])
  }

  /** Every quote twice. */
  function Doubled(s: string): string {
    if s == [] then [] else (if s[0] == QUOTE then [QUOTE, QUOTE] else [s[0]]) + Doubled(s[1..])
  }

  /** A literal as in section 5.3 of ISO/IEC 9075:1992. */
  function Quoted(s: string): string {
    [QUOTE] + (Doubled(s) + [QUOTE])
  }

  lemma {:induction false} DoubledLength(s: string)
    ensures |Doubled(s)| == |s| + QuoteCount(s)
  {
    if s != [] {
      DoubledLength(s[1..]);
    }
  }

  /** The text of a literal whose first quote is gone; None if it does not end with its closing quote. */
  function Undoubled(t: string): Option<string> {
    if t == [] then None
    else if t[0] != QUOTE then
      match Undoubled(t[1..])
      case None => None
      case Some(s) => Some([t[0]] + s)
    else if |t| == 1 then Some([])
    else if t[1] != QUOTE then None
    else
      match Undoubled(t[2..])
      case None => None
      case Some(s) => Some([QUOTE] + s)
  }

  lemma {:induction false} UndoubledDoubled(s: string)
    ensures Undoubled(Doubled(s) + [QUOTE]) == Some(s)
  {
    if s != [] {
      UndoubledDoubled(s[1..]);
      var t, rest := Doubled(s) + [QUOTE], Doubled(s[1..]) + [QUOTE];
      assert s == [s[0]] + s[1..];
      if s[0] == QUOTE {
        assert t == [QUOTE, QUOTE] + rest && t[2..] == rest;
      } else {
        assert t == [s[0]] + rest && t[1..] == rest;
      }
    }
  }

  /** Reading an inserted literal back gives the argument. */
  lemma QuotedReadsBack(s: string)
    ensures Quoted(s)[0] == QUOTE && Undoubled(Quoted(s)[1..]) == Some(s)
    ensures |Quoted(s)| == |s| + 2 + QuoteCount(s)
  {
    UndoubledDoubled(s);
    DoubledLength(s);
  }

  method CountSingleQuote(s: string) returns (result: nat)
    ensures result == QuoteCount(s)
  {
    result := 0;
    var i := 0;
    while i < |s|
      invariant 0 <= i <= |s| && result + QuoteCount(s[i..]) == QuoteCount(s)
    {
      assert s[i..][1..] == s[i + 1..];
      if s[i] == QUOTE {
        result := result + 1;
      }
      i := i + 1;
    }
  }

  lemma DoubledStep(s: string, i: nat, t: string, j: nat)
    requires i < |s| && j <= |t| && t[j..] == Doubled(s[i..]) + [QUOTE]
    ensures t[j] == s[i] && (s[i] == QUOTE ==> j + 1 < |t| && t[j + 1] == QUOTE)
    ensures var next := j + if s[i] == QUOTE then 2 else 1;
      next <= |t| && t[next..] == Doubled(s[i + 1..]) + [QUOTE]
  {
    assert s[i..][1..] == s[i + 1..];
    var rest := Doubled(s[i + 1..]) + [QUOTE];
    if s[i] == QUOTE {
      assert t[j..] == [QUOTE, QUOTE] + rest;
      assert t[j] == t[j..][0] && t[j + 1] == t[j..][1] && t[j + 2..] == t[j..][2..];
    } else {
      assert t[j..] == [s[i]] + rest;
      assert t[j] == t[j..][0] && t[j + 1..] == t[j..][1..];
    }
  }

  /** Char-by-char quoting into a buffer; the result is the number of characters written. */
  method CopyValue(target: array<char>, s: string) returns (j: nat)
    requires |Quoted(s)| <= target.Length
    modifies target
    ensures j == |Quoted(s)| && target[..j] == Quoted(s) && target[j..] == old(target[..])[j..]
  {
    hide Doubled;
    ghost var text := Quoted(s);
    assert s[0..] == s && text[1..] == Doubled(s) + [QUOTE];
    target[0] := QUOTE;
    j := 1;
    var i := 0;
    while i < |s|
      invariant 0 <= i <= |s| && 1 <= j <= |text| <= target.Length
      invariant text[j..] == Doubled(s[i..]) + [QUOTE]
      invariant forall k :: 0 <= k < j ==> target[k] == text[k]
      invariant forall k :: j <= k < target.Length ==> target[k] == old(target[k])
    {
      DoubledStep(s, i, text, j);
      target[j] := s[i];
      j := j + 1;
      if s[i] == QUOTE {
        target[j] := QUOTE;
        j := j + 1;
      }
      i := i + 1;
    }
    DoubledOfEnd(s, text, j);
    target[j] := QUOTE;
    j := j + 1;
  }

  lemma DoubledOfEnd(s: string, t: string, j: nat)
    requires j <= |t| && t[j..] == Doubled(s[|s|..]) + [QUOTE]
    ensures j + 1 == |t| && t[j] == QUOTE
  {
    assert s[|s|..] == [] && t[j..] == [QUOTE];
    assert t[j] == t[j..][0];
  }

  // ---------- What a spliced command is ----------

  const NULL_TEXT := "NULL"

  /** What a placeholder becomes. */
  function Parameter(arg: string, nullString: Option<string>): string {
    if nullString == Some(arg) then NULL_TEXT else Quoted(arg)
  }

  /** The positions are ascending and inside the command, from a position on. */
  predicate Ascending(positions: seq<int>, start: int, length: int) {
    if positions == [] then start <= length
    else start <= positions[0] < length && Ascending(positions[1..], positions[0] + 1, length)
  }

  /** The rest of a command from a position on, with its placeholders replaced. */
  function Splice(cmd: string, start: int, positions: seq<int>, args: seq<string>, nullString: Option<string>): string
    requires 0 <= start && Ascending(positions, start, |cmd|) && |positions| == |args|
    decreases |args|
  {
    if args == [] then cmd[start..]
    else cmd[start..positions[0]]
         + Parameter(args[0], nullString)
         + Splice(cmd, positions[0] + 1, positions[1..], args[1..], nullString)
  }

  // ---------- The buffer ----------

  /** What the first loop adds to the buffer size for the arguments. */
  function Reserve(args: seq<string>): nat {
    if args == [] then 0 else Max(|args[0]|, 2) + 6 + Reserve(args[1..])
  }

  /** By how much reallocations enlarge the buffer: one for each quote after the fourth in an argument. */
  function Growth(args: seq<string>, nullString: Option<string>): nat {
    if args == [] then 0
    else (if nullString == Some(args[0]) then 0 else Max(QuoteCount(args[0]) - 4, 0)) + Growth(args[1..], nullString)
  }

  /** strncpy of a text without NULs at the cursor, and stepping the cursor over it. */
  method Append(buffer: array<char>, cursor: nat, s: string) returns (next: nat)
    requires cursor + |s| <= buffer.Length
    modifies buffer
    ensures next == cursor + |s| && buffer[..next] == old(buffer[..cursor]) + s
  {
    forall k | 0 <= k < |s| {
      buffer[cursor + k] := s[k];
    }
    next := cursor + |s|;
  }

  /** strchr: the first quote, or the length. */
  function FirstQuote(s: string): (p: nat)
    ensures p <= |s| && (p < |s| ==> s[p] == QUOTE)
    ensures forall k :: 0 <= k < p ==> s[k] != QUOTE
  {
    if s == [] then 0 else if s[0] == QUOTE then 0 else 1 + FirstQuote(s[1..])
  }

  lemma {:induction false} DoubledPrefix(plain: string, rest: string)
    requires forall k :: 0 <= k < |plain| ==> plain[k] != QUOTE
    ensures Doubled(plain + rest) == plain + Doubled(rest) && QuoteCount(plain + rest) == QuoteCount(rest)
  {
    if plain == [] {
      assert plain + rest == rest;
    } else {
      DoubledPrefix(plain[1..], rest);
      assert (plain + rest)[1..] == plain[1..] + rest;
    }
  }

  lemma NoQuoteLeft(s: string)
    requires FirstQuote(s) == |s|
    ensures Doubled(s) == s && QuoteCount(s) == 0
  {
    DoubledPrefix(s, []);
    assert s + [] == s;
  }

  lemma QuoteSplits(s: string)
    requires FirstQuote(s) < |s|
    ensures var p := FirstQuote(s);
      && Doubled(s) == s[..p] + ([QUOTE, QUOTE] + Doubled(s[p + 1..]))
      && QuoteCount(s) == 1 + QuoteCount(s[p + 1..])
  {
    hide FirstQuote, Doubled, QuoteCount;
    var p := FirstQuote(s);
    CutAt(s, p);
    QuoteAfter(s[..p], s[p..]);
  }

  lemma QuoteAfter(plain: string, tail: string)
    requires (forall k :: 0 <= k < |plain| ==> plain[k] != QUOTE) && tail != [] && tail[0] == QUOTE
    ensures Doubled(plain + tail) == plain + ([QUOTE, QUOTE] + Doubled(tail[1..]))
    ensures QuoteCount(plain + tail) == 1 + QuoteCount(tail[1..])
  {
    hide Doubled, QuoteCount;
    DoubledPrefix(plain, tail);
    QuoteFirst(tail);
  }

  lemma QuoteFirst(s: string)
    requires s != [] && s[0] == QUOTE
    ensures Doubled(s) == [QUOTE, QUOTE] + Doubled(s[1..]) && QuoteCount(s) == 1 + QuoteCount(s[1..])
  {
  }

  /** The text before the count-th quote of an argument, and that quote twice. */
  method InsertChunk(buffer0: array<char>, cursor0: nat, size0: nat, part: string, count: nat)
    returns (buffer: array<char>, cursor: nat, size: nat)
    requires size0 <= buffer0.Length <= size0 + 1
    requires cursor0 + |part| + 2 <= size0 + if count > 4 then 1 else 0
    modifies buffer0
    ensures size == size0 + if count > 4 then 1 else 0
    ensures if count > 4 then fresh(buffer) && buffer.Length == size else buffer == buffer0
    ensures cursor == cursor0 + |part| + 2 <= buffer.Length
    ensures buffer[..cursor] == old(buffer0[..cursor0]) + (part + [QUOTE] + [QUOTE])
  {
    buffer, cursor, size := buffer0, cursor0, size0;
    ghost var before := buffer0[..cursor0];
    if count > 4 {
      size := size + 1;
      buffer := Reallocate(buffer, size);
      assert buffer[..cursor] == before;
    }
    cursor := Append(buffer, cursor, part);
    cursor := Append(buffer, cursor, [QUOTE]);
    cursor := Append(buffer, cursor, [QUOTE]);
  }

  /**
   The copying of one argument between quotes, in chunks up to each quote.  Four quotes
   have been reserved for; each later one first enlarges the buffer by one.
   */
  method InsertQuoted(buffer0: array<char>, cursor0: nat, size0: nat, arg: string)
    returns (buffer: array<char>, cursor: nat, size: nat)
    requires cursor0 + Max(|arg|, 2) + 6 <= size0 <= buffer0.Length <= size0 + 1
    modifies buffer0
    ensures buffer == buffer0 || fresh(buffer)
    ensures size == size0 + Max(QuoteCount(arg) - 4, 0)
    ensures size <= buffer.Length && buffer.Length == (if size == size0 then buffer0.Length else size)
    ensures cursor == cursor0 + |Quoted(arg)| <= buffer.Length
    ensures buffer[..cursor] == old(buffer0[..cursor0]) + Quoted(arg)
  {
    hide Doubled, FirstQuote, QuoteCount;
    buffer, cursor, size := buffer0, cursor0, size0;
    ghost var before := buffer0[..cursor0];
    var rest, count := arg, 0;
    cursor := Append(buffer, cursor, [QUOTE]);
    ghost var done := [QUOTE];
    while true
      invariant buffer == buffer0 || fresh(buffer)
      invariant size == size0 + Max(count - 4, 0)
      invariant size <= buffer.Length && buffer.Length == (if size == size0 then buffer0.Length else size)
      invariant count + QuoteCount(rest) == QuoteCount(arg) && |rest| <= |arg|
      invariant |done| == 1 + |arg| - |rest| + count && cursor == cursor0 + |done| <= buffer.Length
      invariant buffer[..cursor] == before + done
      invariant done + Doubled(rest) == [QUOTE] + Doubled(arg)
      decreases |rest|
    {
      var partsize := FirstQuote(rest);
      if partsize == |rest| {
        NoQuoteLeft(rest);
        cursor := Append(buffer, cursor, rest);
        Regrouped(before, done, rest);
        done := done + rest;
        break;
      } else {
        QuoteSplits(rest);
        count := count + 1;
        Regrouped(before, done, rest[..partsize] + [QUOTE] + [QUOTE]);
        done := Extended(done, rest, partsize, arg);
        buffer, cursor, size := InsertChunk(buffer, cursor, size, rest[..partsize], count);
        rest := rest[partsize + 1..];
      }
    }
    cursor := Append(buffer, cursor, [QUOTE]);
    CloseLiteral(before, done, arg);
  }

  lemma CloseLiteral(before: string, done: string, arg: string)
    requires done == [QUOTE] + Doubled(arg)
    ensures before + done + [QUOTE] == before + Quoted(arg)
  {
  }

  lemma Extended(done: string, rest: string, p: nat, arg: string) returns (more: string)
    requires p < |rest| && p == FirstQuote(rest) && done + Doubled(rest) == [QUOTE] + Doubled(arg)
    ensures more == done + (rest[..p] + [QUOTE] + [QUOTE])
    ensures more + Doubled(rest[p + 1..]) == [QUOTE] + Doubled(arg)
  {
    hide Doubled;
    QuoteSplits(rest);
    more := done + (rest[..p] + [QUOTE] + [QUOTE]);
    assert more + Doubled(rest[p + 1..]) == done + (rest[..p] + ([QUOTE, QUOTE] + Doubled(rest[p + 1..])));
  }

  // ---------- The whole command ----------

  /** The size of the final buffer, apart from a spare byte that is lost in the first reallocation. */
  function BufferSize(cmd: string, args: seq<string>, nullString: Option<string>): nat {
    |cmd| + Reserve(args) + Growth(args, nullString)
  }

  lemma {:induction false} SpliceLength(
      cmd: string, start: int, positions: seq<int>, args: seq<string>, nullString: Option<string>)
    requires 0 <= start && Ascending(positions, start, |cmd|) && |positions| == |args|
    ensures |Splice(cmd, start, positions, args, nullString)| + |args|
         <= |cmd| - start + Reserve(args) + Growth(args, nullString)
    decreases |args|
  {
    if args != [] {
      SpliceLength(cmd, positions[0] + 1, positions[1..], args[1..], nullString);
      QuotedReadsBack(args[0]);
    }
  }

  /** The spliced command and its terminator fit in the buffer without spare byte just when there is an argument. */
  lemma FitsExactly(cmd: string, positions: seq<int>, args: seq<string>, nullString: Option<string>)
    requires Ascending(positions, 0, |cmd|) && |positions| == |args|
    ensures |Splice(cmd, 0, positions, args, nullString)| + 1 <= BufferSize(cmd, args, nullString) <==> args != []
  {
    SpliceLength(cmd, 0, positions, args, nullString);
  }

  /** A single argument with four or more quotes fills that buffer to the last byte. */
  lemma FourQuotesFill(cmd: string, p: int, arg: string)
    requires 0 <= p < |cmd| && 4 <= QuoteCount(arg)
    ensures |Splice(cmd, 0, [p], [arg], None)| + 1 == BufferSize(cmd, [arg], None)
  {
    QuotedReadsBack(arg);
    QuoteCountBound(arg);
    assert Ascending([p][1..], p + 1, |cmd|);
    SpliceStep(cmd, 0, [p], [arg], None, 0);
    SpliceEnd(cmd, p + 1, [p][1..], [arg][1..], None);
    assert [p][0..] == [p] && [arg][0..] == [arg];
  }

  lemma {:induction false} QuoteCountBound(s: string)
    ensures QuoteCount(s) <= |s|
  {
    if s != [] {
      QuoteCountBound(s[1..]);
    }
  }

  lemma SpliceStep(cmd: string, start: int, positions: seq<int>, args: seq<string>, nullString: Option<string>, i: nat)
    requires |positions| == |args| && i < |args| && 0 <= start && Ascending(positions[i..], start, |cmd|)
    ensures start <= positions[i] < |cmd| && Ascending(positions[i + 1..], positions[i] + 1, |cmd|)
    ensures Splice(cmd, start, positions[i..], args[i..], nullString)
         == cmd[start..positions[i]] + Parameter(args[i], nullString)
            + Splice(cmd, positions[i] + 1, positions[i + 1..], args[i + 1..], nullString)
    ensures Reserve(args[i..]) == Max(|args[i]|, 2) + 6 + Reserve(args[i + 1..])
    ensures Growth(args[i..], nullString)
         == (if nullString == Some(args[i]) then 0 else Max(QuoteCount(args[i]) - 4, 0))
            + Growth(args[i + 1..], nullString)
  {
    hide Parameter, QuoteCount;
    CutAt(positions, i);
    CutAt(args, i);
  }

  lemma ReserveStep(args: seq<string>, i: nat)
    requires i < |args|
    ensures Reserve(args[i..]) == Max(|args[i]|, 2) + 6 + Reserve(args[i + 1..])
  {
    assert args[i..][1..] == args[i + 1..];
  }

  /** The first loop. */
  method InitialSize(cmd: string, args: seq<string>) returns (size: nat)
    ensures size == |cmd| + Reserve(args)
  {
    size := |cmd|;
    assert args[0..] == args;
    for i := 0 to |args|
      invariant size + Reserve(args[i..]) == |cmd| + Reserve(args)
    {
      ReserveStep(args, i);
      var arglen := |args[i]|;
      if arglen < 2 {
        arglen := 2;
      }
      size := size + arglen + 6;
    }
  }

  method InsertParameter(buffer0: array<char>, cursor0: nat, size0: nat, arg: string, nullString: Option<string>)
    returns (buffer: array<char>, cursor: nat, size: nat)
    requires cursor0 + Max(|arg|, 2) + 6 <= size0 <= buffer0.Length <= size0 + 1
    modifies buffer0
    ensures buffer == buffer0 || fresh(buffer)
    ensures size == size0 + if nullString == Some(arg) then 0 else Max(QuoteCount(arg) - 4, 0)
    ensures size <= buffer.Length && buffer.Length == (if size == size0 then buffer0.Length else size)
    ensures cursor0 <= cursor <= cursor0 + Max(|arg|, 2) + 6 + (size - size0) && cursor <= buffer.Length
    ensures buffer[..cursor] == old(buffer0[..cursor0]) + Parameter(arg, nullString)
  {
    hide Doubled, QuoteCount;
    if nullString.Some? && |arg| == |nullString.value| && arg == nullString.value {
      buffer, size := buffer0, size0;
      cursor := Append(buffer, cursor0, NULL_TEXT);
    } else {
      QuotedReadsBack(arg);
      buffer, cursor, size := InsertQuoted(buffer0, cursor0, size0, arg);
    }
  }

  /** spare is 1 for mysql and 0 for sqlite. */
  method InsertParam(cmd: string, parsed: seq<int>, nullString: Option<string>, args: seq<string>, spare: nat)
    returns (result: array<char>, resultLen: nat)
    requires spare <= 1 && args != [] && |args| <= |parsed| && Ascending(parsed[..|args|], 0, |cmd|)
    ensures result.Length == BufferSize(cmd, args, nullString) + if Growth(args, nullString) == 0 then spare else 0
    ensures resultLen == |Splice(cmd, 0, parsed[..|args|], args, nullString)| < result.Length
    ensures result[..resultLen] == Splice(cmd, 0, parsed[..|args|], args, nullString)
    ensures result[resultLen] == NUL
  {
    hide Splice, Ascending, Reserve, Growth, Parameter, QuoteCount;
    ghost var positions := parsed[..|args|];
    ghost var sql := Splice(cmd, 0, positions, args, nullString);
    var initial := InitialSize(cmd, args);
    var size := initial;
    var buffer := new char[size + spare];
    var cursor, prvsrcpos := 0, 0;
    ghost var out := "";
    assert positions[0..] == positions && args[0..] == args;
    for i := 0 to |args|
      invariant fresh(buffer)
      invariant size <= buffer.Length && buffer.Length == (if size == initial then initial + spare else size)
      invariant 0 <= prvsrcpos && Ascending(positions[i..], prvsrcpos, |cmd|)
      invariant initial <= size && size + Growth(args[i..], nullString) == BufferSize(cmd, args, nullString)
      invariant cursor + (|cmd| - prvsrcpos) + Reserve(args[i..]) + i <= size
      invariant cursor == |out| <= buffer.Length && buffer[..cursor] == out
      invariant out + Splice(cmd, prvsrcpos, positions[i..], args[i..], nullString) == sql
    {
      SpliceStep(cmd, prvsrcpos, positions, args, nullString, i);
      ghost var part := cmd[prvsrcpos..parsed[i]];
      cursor := Append(buffer, cursor, cmd[prvsrcpos..parsed[i]]);
      prvsrcpos := parsed[i] + 1;
      buffer, cursor, size := InsertParameter(buffer, cursor, size, args[i], nullString);
      ghost var rest := Splice(cmd, prvsrcpos, positions[i + 1..], args[i + 1..], nullString);
      Regroup(out, part, Parameter(args[i], nullString), rest);
      out := out + part + Parameter(args[i], nullString);
    }
    SpliceEnd(cmd, prvsrcpos, positions[|args|..], args[|args|..], nullString);
    cursor := Append(buffer, cursor, cmd[prvsrcpos..]);
    buffer[cursor] := NUL;
    return buffer, cursor;
  }

  lemma Regroup(a: string, b: string, c: string, d: string)
    ensures a + (b + c + d) == a + b + c + d
  {
  }

  lemma SpliceEnd(cmd: string, start: int, positions: seq<int>, args: seq<string>, nullString: Option<string>)
    requires positions == [] && args == [] && 0 <= start && Ascending(positions, start, |cmd|)
    ensures start <= |cmd| && Splice(cmd, start, positions, args, nullString) == cmd[start..]
    ensures Growth(args, nullString) == 0 == Reserve(args)
  {
  }

  // ---------- Commands and sizes in terms of the text alone ----------

  lemma {:induction false} QuotesCounted(s: string)
    ensures QuoteCount(s) == multiset(s)['\'']
  {
    if s != [] {
      QuotesCounted(s[1..]);
      assert s == [s[0]] + s[1..];
    }
  }

  /** Doubling goes character by character. */
  lemma {:induction false} DoubledConcat(a: string, b: string)
    ensures Doubled(a + b) == Doubled(a) + Doubled(b)
    ensures Doubled("'") == "''" && forall c :: c != '\'' ==> Doubled([c]) == [c]
  {
    if a == [] {
      assert a + b == b;
    } else {
      assert (a + b)[1..] == a[1..] + b;
      DoubledConcat(a[1..], b);
    }
  }

  /** Only the null string becomes NULL; any other argument, an empty one too, becomes a literal that stands for it. */
  lemma ParameterMeans(arg: string, nullString: Option<string>)
    ensures var text := Parameter(arg, nullString);
      if nullString == Some(arg) then text == "NULL"
      else text[0] == '\'' && text == "'" + Doubled(arg) + "'" && Undoubled(text[1..]) == Some(arg)
  {
    QuotedReadsBack(arg);
    assert "'" + Doubled(arg) + "'" == "'" + (Doubled(arg) + "'");
  }

  lemma SpliceOfNone(cmd: string, nullString: Option<string>)
    ensures Splice(cmd, 0, [], [], nullString) == cmd
  {
  }

  /** Replacing the last placeholder first: the text behind it is kept, and what is before it is spliced. */
  lemma {:induction false} SpliceLast(
      cmd: string, start: nat, positions: seq<int>, p: int, args: seq<string>, arg: string, nullString: Option<string>)
    requires |positions| == |args| && start <= p < |cmd| && Ascending(positions, start, p)
    ensures Ascending(positions + [p], start, |cmd|)
    ensures Splice(cmd, start, positions + [p], args + [arg], nullString)
         == Splice(cmd[..p], start, positions, args, nullString) + Parameter(arg, nullString) + cmd[p + 1..]
    decreases |args|
  {
    hide Parameter;
    if args == [] {
      assert positions + [p] == [p] && args + [arg] == [arg] && [p][1..] == [] && [arg][1..] == [];
      assert cmd[..p][start..] == cmd[start..p];
    } else {
      var q := positions[0];
      SpliceLast(cmd, q + 1, positions[1..], p, args[1..], arg, nullString);
      assert (positions + [p])[1..] == positions[1..] + [p] && (args + [arg])[1..] == args[1..] + [arg];
      assert (positions + [p])[0] == q && (args + [arg])[0] == args[0];
      hide Splice;
      SpliceFirst(cmd, start, positions + [p], args + [arg], nullString);
      SpliceFirst(cmd[..p], start, positions, args, nullString);
      assert cmd[..p][start..q] == cmd[start..q];
      var head, tail := cmd[start..q] + Parameter(args[0], nullString), Parameter(arg, nullString);
      Regrouped(head, Splice(cmd[..p], q + 1, positions[1..], args[1..], nullString) + tail, cmd[p + 1..]);
      Regrouped(head, Splice(cmd[..p], q + 1, positions[1..], args[1..], nullString), tail);
    }
  }

  lemma SpliceFirst(cmd: string, start: nat, positions: seq<int>, args: seq<string>, nullString: Option<string>)
    requires Ascending(positions, start, |cmd|) && |positions| == |args| && args != []
    ensures Splice(cmd, start, positions, args, nullString)
         == cmd[start..positions[0]] + Parameter(args[0], nullString)
            + Splice(cmd, positions[0] + 1, positions[1..], args[1..], nullString)
  {
  }

  /** What one more argument adds to the first buffer, and to its growth. */
  lemma {:induction false} OneMoreArgument(args: seq<string>, arg: string, nullString: Option<string>)
    ensures Reserve(args + [arg]) == Reserve(args) + if |arg| < 2 then 8 else |arg| + 6
    ensures var quotes := multiset(arg)['\''];
      Growth(args + [arg], nullString)
        == Growth(args, nullString) + if nullString == Some(arg) || quotes <= 4 then 0 else quotes - 4
    ensures Reserve([]) == 0 == Growth([], nullString)
  {
    QuotesCounted(arg);
    if args == [] {
      assert args + [arg] == [arg] && [arg][1..] == [];
    } else {
      OneMoreArgument(args[1..], arg, nullString);
      assert (args + [arg])[1..] == args[1..] + [arg];
    }
  }
}
