/**
 The file import of sqlite3/generic/dbi_sqlite_import.c: lines of any length read into a
 growing buffer, split into fields in place, and inserted in one transaction.
 Files are free of NUL characters.
 */
module FileImport {
  import opened Common

  const NUL := '\0'
  const NEWLINE := '\n'

  // ---------- What lines and fields are ----------

  function FirstLine(data: string): string {
    if data == "" || data[0] == NEWLINE then "" else [data[0]] + FirstLine(data[1..])
  }

  function AfterLine(data: string): (rest: string)
    ensures |rest| <= |data| && (data != "" ==> |rest| < |data|)
  {
    if data == "" then "" else if data[0] == NEWLINE then data[1..] else AfterLine(data[1..])
  }

  function Lines(data: string): seq<string>
    decreases |data|
  {
    if data == "" then [] else [FirstLine(data)] + Lines(AfterLine(data))
  }

  /** The pieces between the separators, found from left to right. */
  function Split(line: string, sep: string): (fields: seq<string>)
    requires sep != ""
    ensures fields != []
    decreases |line|
  {
    if line == "" then [""]
    else if sep <= line then [""] + Split(line[|sep|..], sep)
    else Prepended([line[0]], Split(line[1..], sep))
  }

  function Prepended(start: string, fields: seq<string>): seq<string>
    requires fields != []
  {
    [start + fields[0]] + fields[1..]
  }

  // ---------- Reading lines ----------

  class TextFile {
    var data: string  // what is left to be read

    constructor (data: string)
      ensures this.data == data
    {
      this.data := data;
    }

    /** fgets into the buffer from n on: to the end of the line, of the buffer or of the file, and a NUL. */
    method Fgets(buffer: array<char>, n: nat) returns (ghost read: string, ok: bool)
      requires n + 2 <= buffer.Length
      modifies this, buffer
      ensures ok <==> old(data) != ""
      ensures !ok ==> read == "" && unchanged(this) && unchanged(buffer)
      ensures ok ==> read != "" && n + |read| < buffer.Length && buffer[n + |read|] == NUL
      ensures ok ==> buffer[..n + |read|] == old(buffer[..n]) + read
      ensures old(data) == read + data
      ensures forall k :: 0 <= k < |read| - 1 ==> read[k] != NEWLINE
    {
      read := "";
      if data == "" {
        return read, false;
      }
      ghost var all := data;
      var k := 0;
      while true
        invariant 0 <= k < |all| && n + k + 2 <= buffer.Length
        invariant data == all && buffer[..n] == old(buffer[..n]) && buffer[n..n + k] == all[..k]
        invariant forall j :: 0 <= j < k ==> all[j] != NEWLINE
        decreases |all| - k
      {
        buffer[n + k] := data[k];
        k := k + 1;
        if data[k - 1] == NEWLINE || k == |data| || n + k + 1 == buffer.Length {
          break;
        }
      }
      read := all[..k];
      buffer[n + k] := NUL;
      assert buffer[..n + k] == buffer[..n] + buffer[n..n + k];
      data := data[k..];
      ok := true;
    }
  }

  lemma {:induction false} LineParts(data: string, k: nat)
    requires k <= |data| && forall j :: 0 <= j < k ==> data[j] != NEWLINE
    ensures k == |data| ==> FirstLine(data) == data && AfterLine(data) == ""
    ensures k < |data| && data[k] == NEWLINE ==> FirstLine(data) == data[..k] && AfterLine(data) == data[k + 1..]
  {
    if k > 0 {
      LineParts(data[1..], k - 1);
      assert data == [data[0]] + data[1..];
      if k < |data| {
        assert data[1..][..k - 1] == data[..k][1..] && data[1..][k..] == data[k + 1..];
        assert data[..k] == [data[0]] + data[1..][..k - 1];
      }
    }
  }

  method StringEnd(buffer: array<char>, start: nat, ghost end: nat) returns (n: nat)
    requires start <= end < buffer.Length && buffer[end] == NUL
    requires forall k :: start <= k < end ==> buffer[k] != NUL
    ensures n == end
  {
    n := start;
    while buffer[n] != NUL
      invariant start <= n <= end
      decreases end - n
    {
      n := n + 1;
    }
  }

  /** The first n characters of the text are in the buffer, and the file has the rest. */
  ghost predicate Loaded(all: string, buffer: array<char>, n: nat, file: TextFile)
    reads buffer, file
  {
    && n <= |all| && n < buffer.Length && file.data == all[n..]
    && forall k :: 0 <= k < n ==> buffer[k] == all[k]
  }

  /** One fgets, and finding the end of what it read. */
  method ReadMore(file: TextFile, zLine: array<char>, n0: nat, ghost all: string) returns (n: nat, ok: bool)
    requires Loaded(all, zLine, n0, file) && n0 + 2 <= zLine.Length && NUL !in all
    modifies file, zLine
    ensures Loaded(all, zLine, n, file)
    ensures n <= |all| && n < zLine.Length && forall k :: 0 <= k < n ==> zLine[k] == all[k]
    ensures if ok then n0 < n else n == n0 == |all|
    ensures forall k :: n0 <= k < n - 1 ==> all[k] != NEWLINE
    ensures file.data == all[n..]
  {
    ghost var read;
    read, ok := file.Fgets(zLine, n0);
    if !ok {
      return n0, false;
    }
    ghost var end := n0 + |read|;
    assert all[n0..] == read + file.data;
    assert all[n0..][..|read|] == read && all[n0..][|read|..] == all[end..];
    assert forall k :: n0 <= k < end ==> zLine[k] == zLine[..end][k] == read[k - n0] == all[n0..][k - n0] == all[k];
    assert forall k :: 0 <= k < n0 ==> zLine[k] == zLine[..end][k];
    n := StringEnd(zLine, n0, end);
  }

  /** Terminating the line and giving the rest of the buffer back. */
  method Finish(zLine: array<char>, n: nat, ghost all: string) returns (line: array<char>)
    requires n < zLine.Length && n <= |all| && forall k :: 0 <= k < n ==> zLine[k] == all[k]
    modifies zLine
    ensures fresh(line) && line.Length == n + 1 && line[n] == NUL && line[..n] == all[..n]
  {
    zLine[n] := NUL;
    line := Reallocate(zLine, n + 1);
  }

  lemma NothingLoaded(all: string, zLine: array<char>, file: TextFile)
    requires file.data == all && zLine.Length > 0
    ensures Loaded(all, zLine, 0, file)
  {
  }

  /** More room, and what is loaded stays loaded. */
  method Grow(zLine: array<char>, nLine: nat, n: nat, file: TextFile, ghost all: string) returns (more: array<char>)
    requires Loaded(all, zLine, n, file) && zLine.Length <= nLine
    ensures fresh(more) && more.Length == nLine && Loaded(all, more, n, file)
  {
    more := Reallocate(zLine, nLine);
    assert forall k :: 0 <= k < n ==> more[k] == more[..zLine.Length][k] == zLine[k];
  }

  /** The next line, terminated and in a buffer of just its size, however often the buffer had to grow. */
  method GetLine(file: TextFile) returns (line: Option<array<char>>)
    requires NUL !in file.data
    modifies file
    ensures line == None <==> old(file.data) == ""
    ensures line.Some? ==>
      var a, n := line.value, |FirstLine(old(file.data))|;
      && fresh(a) && a.Length == n + 1 && a[n] == NUL && a[..n] == FirstLine(old(file.data))
      && NUL !in a[..n]
    ensures file.data == AfterLine(old(file.data)) && NUL !in file.data
  {
    hide FirstLine, AfterLine, Loaded;
    ghost var all := file.data;
    var nLine := 100;
    var zLine := new char[nLine];
    var n := 0;
    NothingLoaded(all, zLine, file);
    while true
      invariant fresh(zLine) && n < zLine.Length == nLine && Loaded(all, zLine, n, file)
      invariant n <= |all| && forall k :: 0 <= k < n ==> all[k] != NEWLINE
      decreases |all| - n
    {
      if n + 100 > nLine {
        nLine := nLine * 2 + 100;
        zLine := Grow(zLine, nLine, n, file, all);
      }
      var ok;
      n, ok := ReadMore(file, zLine, n, all);
      if !ok {
        LineParts(all, n);
        assert all[..n] == all;
        if n == 0 {
          return None;
        }
        break;
      }
      if n > 0 && zLine[n - 1] == NEWLINE {
        n := n - 1;
        LineParts(all, n);
        break;
      }
    }
    zLine := Finish(zLine, n, all);
    line := Some(zLine);
  }

  // ---------- Splitting a line in place ----------

  /** The C string at p is f. */
  ghost predicate HoldsField(buffer: array<char>, p: nat, f: string)
    reads buffer
  {
    && p + |f| < buffer.Length && buffer[p + |f|] == NUL
    && forall k :: 0 <= k < |f| ==> buffer[p + k] == f[k]
  }

  /** How far the splitting has come: complete fields, and the start of the current one. */
  ghost predicate SplitSoFar(line: string, sep: string, fields: seq<string>, start: nat, z: nat)
    requires sep != ""
  {
    start <= z <= |line| && fields + Prepended(line[start..z], Split(line[z..], sep)) == Split(line, sep)
  }

  lemma SplitOneMore(line: string, sep: string, fields: seq<string>, start: nat, z: nat)
    requires sep != "" && SplitSoFar(line, sep, fields, start, z) && z < |line| && !(sep <= line[z..])
    ensures SplitSoFar(line, sep, fields, start, z + 1)
  {
    var rest := Split(line[z + 1..], sep);
    assert line[z..][1..] == line[z + 1..];
    assert line[start..z] + ([line[z]] + rest[0]) == line[start..z + 1] + rest[0];
  }

  lemma SplitAtSeparator(line: string, sep: string, fields: seq<string>, start: nat, z: nat)
    requires sep != "" && SplitSoFar(line, sep, fields, start, z) && z < |line| && sep <= line[z..]
    ensures z + |sep| <= |line|
    ensures SplitSoFar(line, sep, fields + [line[start..z]], z + |sep|, z + |sep|)
  {
    var next := z + |sep|;
    var rest := Split(line[next..], sep);
    assert line[z..][|sep|..] == line[next..];
    assert line[start..z] + "" == line[start..z] && line[next..next] + rest[0] == rest[0];
    assert Prepended(line[next..next], rest) == rest;
    assert fields + ([line[start..z]] + rest) == fields + [line[start..z]] + rest;
  }

  lemma SplitAtEnd(line: string, sep: string, fields: seq<string>, start: nat)
    requires sep != "" && SplitSoFar(line, sep, fields, start, |line|)
    ensures Split(line, sep) == fields + [line[start..]]
  {
    assert line[|line|..] == "";
    assert line[start..|line|] + "" == line[start..];
  }

  /** strncmp of the rest of the line with the separator */
  method StartsWith(zLine: array<char>, z: nat, sep: string, ghost line: string) returns (yes: bool)
    requires z <= |line| < zLine.Length && zLine[|line|] == NUL && NUL !in sep
    requires forall k :: z <= k < |line| ==> zLine[k] == line[k]
    ensures yes <==> sep <= line[z..]
  {
    var k := 0;
    while k < |sep|
      invariant 0 <= k <= |sep| && z + k <= |line| && forall j :: 0 <= j < k ==> sep[j] == line[z..][j]
    {
      if zLine[z + k] != sep[k] {
        assert z + k < |line| ==> line[z..][k] == line[z + k];
        return false;
      }
      assert line[z..][k] == line[z + k];
      k := k + 1;
    }
    yes := true;
  }

  /**
   Overwrites the separators with NULs.  azCol gets the first nCol fields, and i + 1 is
   the number of fields if they fit.
   */
  method SplitInPlace(zLine: array<char>, sep: string, nCol: nat, azCol: array<nat>, ghost line: string)
    returns (i: nat)
    requires zLine.Length == |line| + 1 && zLine[..|line|] == line && zLine[|line|] == NUL && NUL !in line
    requires sep != "" && NUL !in sep && 0 < nCol == azCol.Length - 1
    modifies zLine, azCol
    ensures |Split(line, sep)| > nCol <==> i + 1 > nCol
    ensures i + 1 <= nCol ==>
      && i + 1 == |Split(line, sep)|
      && forall j :: 0 <= j <= i ==> HoldsField(zLine, azCol[j], Split(line, sep)[j])
  {
    hide Split, Prepended, SplitSoFar;
    ghost var fields: seq<string> := [];
    i := 0;
    azCol[0] := 0;
    var z := 0;
    SplitStart(line, sep);
    while zLine[z] != NUL
      invariant 0 <= z <= |line|
      invariant forall k :: z <= k < zLine.Length ==> zLine[k] == if k < |line| then line[k] else NUL
      invariant i >= nCol ==> |Split(line, sep)| > nCol
      invariant i < nCol ==> |fields| == i && azCol[i] <= z && SplitSoFar(line, sep, fields, azCol[i], z)
      invariant i < nCol ==> forall k :: azCol[i] <= k < z ==> zLine[k] == line[k]
      invariant i < nCol ==> forall j :: 0 <= j < i ==>
        azCol[j] + |fields[j]| < azCol[i] && HoldsField(zLine, azCol[j], fields[j])
      decreases |line| - z
    {
      var separator := StartsWith(zLine, z, sep, line);
      if separator {
        zLine[z] := NUL;
        i := i + 1;
        if i <= nCol {
          SplitAtSeparator(line, sep, fields, azCol[i - 1], z);
          SplitCount(line, sep, fields + [line[azCol[i - 1]..z]], z + |sep|, z + |sep|);
        }
        if i < nCol {
          fields := fields + [line[azCol[i - 1]..z]];
          azCol[i] := z + |sep|;
          z := z + |sep| - 1;
        }
      } else if i < nCol {
        SplitOneMore(line, sep, fields, azCol[i], z);
      }
      z := z + 1;
    }
    if i < nCol {
      SplitAtEnd(line, sep, fields, azCol[i]);
    }
  }

  lemma SplitStart(line: string, sep: string)
    requires sep != ""
    ensures SplitSoFar(line, sep, [], 0, 0)
  {
    assert line[0..] == line && line[0..0] + Split(line, sep)[0] == Split(line, sep)[0];
  }

  lemma SplitCount(line: string, sep: string, fields: seq<string>, start: nat, z: nat)
    requires sep != "" && SplitSoFar(line, sep, fields, start, z)
    ensures |Split(line, sep)| > |fields|
  {
  }

  // ---------- Importing ----------

  type Row = seq<Option<string>>

  /** What is bound for a field: NULL if it is empty or the null indicator. */
  function Bound(field: string, nullText: string): Option<string> {
    if field == "" || (nullText != "" && field == nullText) then None else Some(field)
  }

  /** The row of a line: its fields, and NULL for the missing ones. */
  function RowOf(fields: seq<string>, nCol: nat, nullText: string): (row: Row)
    requires |fields| <= nCol
    ensures |row| == nCol
    ensures forall i :: 0 <= i < nCol ==> row[i] == if i < |fields| then Bound(fields[i], nullText) else None
  {
    seq(nCol, i => if 0 <= i < |fields| then Bound(fields[i], nullText) else None)
  }

  /** The rows after inserting lines in order, or None as soon as a line is too long or refused. */
  function Inserted(
      rows: seq<Row>, lines: seq<string>, sep: string, nCol: nat, nullText: string,
      accepts: (seq<Row>, Row) -> bool)
    : Option<seq<Row>>
    requires sep != ""
    decreases |lines|
  {
    if lines == [] then Some(rows)
    else
      var fields := Split(lines[0], sep);
      if |fields| > nCol then None
      else
        var row := RowOf(fields, nCol, nullText);
        if !accepts(rows, row) then None else Inserted(rows + [row], lines[1..], sep, nCol, nullText, accepts)
  }

  /** A table outside any transaction, and the constraints on what may be added to it. */
  class Table {
    var rows: seq<Row>
    const accepts: (seq<Row>, Row) -> bool

    constructor (rows: seq<Row>, accepts: (seq<Row>, Row) -> bool)
      ensures this.rows == rows && this.accepts == accepts
    {
      this.rows := rows;
      this.accepts := accepts;
    }

    /** sqlite3_step and reset with conflict algorithm abort */
    method Insert(row: Row) returns (ok: bool)
      modifies this
      ensures ok == accepts(old(rows), row)
      ensures rows == if ok then old(rows) + [row] else old(rows)
    {
      ok := accepts(rows, row);
      if ok { rows := rows + [row]; }
    }
  }

  method ReadField(zLine: array<char>, p: nat, ghost field: string) returns (f: string)
    requires HoldsField(zLine, p, field) && NUL !in field
    ensures f == field
  {
    assert forall k :: p <= k < p + |field| ==> zLine[k] == field[k - p];
    var end := StringEnd(zLine, p, p + |field|);
    f := zLine[p..end];
  }

  /** Binding the columns of one line. */
  method BindRow(
      zLine: array<char>, azCol: array<nat>, aCol: nat, nCol: nat, nullText: string, ghost fields: seq<string>)
    returns (row: Row)
    requires aCol == |fields| <= nCol == azCol.Length - 1
    requires forall j :: 0 <= j < aCol ==> HoldsField(zLine, azCol[j], fields[j]) && NUL !in fields[j]
    ensures row == RowOf(fields, nCol, nullText)
    ensures forall j :: 0 <= j < nCol ==>
      row[j] == if j < |fields| && fields[j] != "" && !(nullText != "" && fields[j] == nullText)
                then Some(fields[j]) else None
  {
    row := [];
    for i := 0 to nCol
      invariant |row| == i && forall k :: 0 <= k < i ==> row[k] == RowOf(fields, nCol, nullText)[k]
    {
      if i >= aCol {
        row := row + [None];
      } else {
        var field := ReadField(zLine, azCol[i], fields[i]);
        if (|nullText| > 0 && field == nullText) || |field| == 0 {
          row := row + [None];
        } else {
          row := row + [Some(field)];
        }
      }
    }
  }

  lemma {:induction false} FieldsAreClean(line: string, sep: string)
    requires sep != "" && NUL !in line
    ensures forall f :: f in Split(line, sep) ==> NUL !in f
    decreases |line|
  {
    if line != "" {
      if sep <= line {
        FieldsAreClean(line[|sep|..], sep);
      } else {
        FieldsAreClean(line[1..], sep);
        var rest := Split(line[1..], sep);
        assert forall f :: f in rest[1..] ==> f in rest;
        assert rest[0] in rest;
      }
    }
  }

  /** One line of the import loop. */
  method ImportLine(
      table: Table, zLine: array<char>, sep: string, nCol: nat, nullText: string, azCol: array<nat>,
      ghost line: string)
    returns (ok: bool)
    requires zLine.Length == |line| + 1 && zLine[..|line|] == line && zLine[|line|] == NUL && NUL !in line
    requires sep != "" && NUL !in sep && 0 < nCol == azCol.Length - 1
    modifies table, zLine, azCol
    ensures var fields := Split(line, sep);
      if |fields| > nCol || !table.accepts(old(table.rows), RowOf(fields, nCol, nullText)) then
        !ok && table.rows == old(table.rows)
      else ok && table.rows == old(table.rows) + [RowOf(fields, nCol, nullText)]
  {
    hide Split;
    var i := SplitInPlace(zLine, sep, nCol, azCol, line);
    if i + 1 > nCol {
      return false;
    }
    FieldsAreClean(line, sep);
    var row := BindRow(zLine, azCol, i + 1, nCol, nullText, Split(line, sep));
    ok := table.Insert(row);
  }

  lemma InsertedNone(rows: seq<Row>, sep: string, nCol: nat, nullText: string, accepts: (seq<Row>, Row) -> bool)
    requires sep != ""
    ensures Inserted(rows, [], sep, nCol, nullText, accepts) == Some(rows)
  {
  }

  lemma LinesStep(data: string, all: seq<string>, k: nat)
    requires k <= |all| && Lines(data) == all[k..] && data != ""
    ensures k < |all| && all[k] == FirstLine(data) && Lines(AfterLine(data)) == all[k + 1..]
  {
    assert all[k..][0] == FirstLine(data) && all[k..][1..] == all[k + 1..];
  }

  lemma {:induction false} InsertedConcat(
      rows: seq<Row>, a: seq<string>, b: seq<string>, sep: string, nCol: nat, nullText: string,
      accepts: (seq<Row>, Row) -> bool)
    requires sep != ""
    ensures var first := Inserted(rows, a, sep, nCol, nullText, accepts);
      Inserted(rows, a + b, sep, nCol, nullText, accepts)
        == if first == None then None else Inserted(first.value, b, sep, nCol, nullText, accepts)
    decreases |a|
  {
    if a == [] {
      assert a + b == b;
    } else {
      assert (a + b)[1..] == a[1..] + b;
      var fields := Split(a[0], sep);
      if |fields| <= nCol {
        InsertedConcat(rows + [RowOf(fields, nCol, nullText)], a[1..], b, sep, nCol, nullText, accepts);
      }
    }
  }

  /** After the first k lines, what line k does decides. */
  lemma InsertedSnoc(
      rows: seq<Row>, all: seq<string>, k: nat, sep: string, nCol: nat, nullText: string,
      accepts: (seq<Row>, Row) -> bool, now: seq<Row>)
    requires sep != "" && k < |all| && Inserted(rows, all[..k], sep, nCol, nullText, accepts) == Some(now)
    ensures var fields := Split(all[k], sep);
      if |fields| > nCol || !accepts(now, RowOf(fields, nCol, nullText)) then
        && Inserted(rows, all, sep, nCol, nullText, accepts) == None
        && Inserted(rows, all[..k + 1], sep, nCol, nullText, accepts) == None
      else
        Inserted(rows, all[..k + 1], sep, nCol, nullText, accepts) == Some(now + [RowOf(fields, nCol, nullText)])
  {
    assert all == all[..k] + all[k..] && all[..k + 1] == all[..k] + [all[k]];
    InsertedConcat(rows, all[..k], all[k..], sep, nCol, nullText, accepts);
    InsertedConcat(rows, all[..k], [all[k]], sep, nCol, nullText, accepts);
    assert [all[k]][1..] == [];
  }

  /**
   Either every line becomes a row, or the table is as before because that is not possible;
   lineno counts the lines looked at.
   */
  method Import(table: Table, file: TextFile, sep: string, nCol: nat, nullText: string) returns (ok: bool, lineno: nat)
    requires sep != "" && NUL !in sep && nCol > 0 && NUL !in file.data
    modifies table, file
    ensures var result := Inserted(old(table.rows), Lines(old(file.data)), sep, nCol, nullText, table.accepts);
      && ok == result.Some?
      && table.rows == (if ok then result.value else old(table.rows))
    ensures var lines := Lines(old(file.data));
      if ok then OneRowPerLine(old(table.rows), table.rows, lines, sep, nCol, nullText, table.accepts)
      else forall all :: !OneRowPerLine(old(table.rows), all, lines, sep, nCol, nullText, table.accepts)
    ensures ok ==> lineno == |Lines(old(file.data))|
    ensures !ok ==> 0 < lineno <= |Lines(old(file.data))|
    ensures !ok ==>
      Inserted(old(table.rows), Lines(old(file.data))[..lineno - 1], sep, nCol, nullText, table.accepts).Some?
    ensures !ok ==> Inserted(old(table.rows), Lines(old(file.data))[..lineno], sep, nCol, nullText, table.accepts).None?
  {
    var saved := table.rows;  // BEGIN
    var azCol := new nat[nCol + 1](_ => 0);
    ghost var all := Lines(file.data);
    ok, lineno := true, 0;
    InsertedNone(saved, sep, nCol, nullText, table.accepts);
    while true
      invariant ok && NUL !in file.data && fresh(azCol) && azCol.Length == nCol + 1
      invariant lineno <= |all| && Lines(file.data) == all[lineno..]
      invariant Inserted(saved, all[..lineno], sep, nCol, nullText, table.accepts) == Some(table.rows)
      decreases |all| - lineno
    {
      ghost var data, before := file.data, table.rows;
      var zLine := GetLine(file);
      if zLine == None {
        assert all[..lineno] == all;
        break;
      }
      LinesStep(data, all, lineno);
      InsertedSnoc(saved, all, lineno, sep, nCol, nullText, table.accepts, before);
      lineno := lineno + 1;
      ok := ImportLine(table, zLine.value, sep, nCol, nullText, azCol, FirstLine(data));
      if !ok {
        table.rows := saved;  // ROLLBACK
        break;
      }
    }
    forall rows: seq<Row>
      ensures Inserted(saved, all, sep, nCol, nullText, table.accepts) == Some(rows)
         <==> OneRowPerLine(saved, rows, all, sep, nCol, nullText, table.accepts)
    {
      InsertedExactly(saved, rows, all, sep, nCol, nullText, table.accepts);
    }
  }

  // ---------- Files made by joining rows ----------

  function Join(fields: seq<string>, c: char): string
    requires fields != []
  {
    if |fields| == 1 then fields[0] else fields[0] + [c] + Join(fields[1..], c)
  }

  function FileOf(rows: seq<seq<string>>, c: char): string
    requires forall i :: 0 <= i < |rows| ==> rows[i] != []
  {
    if rows == [] then "" else Join(rows[0], c) + [NEWLINE] + FileOf(rows[1..], c)
  }

  predicate FreeOf(fields: seq<string>, c: char) {
    forall f :: f in fields ==> c !in f
  }

  lemma SplitCons(c: char, tail: string, sep: string)
    requires sep != "" && !(sep <= [c] + tail)
    ensures Split([c] + tail, sep) == Prepended([c], Split(tail, sep))
  {
    assert ([c] + tail)[1..] == tail;
  }

  lemma PrependedOnto(c: char, first: string, rest: seq<string>)
    ensures Prepended([c], [first] + rest) == [[c] + first] + rest
  {
  }

  lemma {:induction false} SplitPlain(field: string, rest: string, c: char)
    requires c !in field && (rest == "" || rest[0] == c)
    ensures Split(field + rest, [c]) == if rest == "" then [field] else [field] + Split(rest[1..], [c])
    decreases |field|
  {
    if field == "" {
      assert field + rest == rest;
    } else {
      hide Split, Prepended;
      SplitPlain(field[1..], rest, c);
      assert field + rest == [field[0]] + (field[1..] + rest) && [field[0]] + field[1..] == field;
      SplitCons(field[0], field[1..] + rest, [c]);
      PrependedOnto(field[0], field[1..], if rest == "" then [] else Split(rest[1..], [c]));
      assert rest == "" ==> [field[1..]] == [field[1..]] + [] && [field] == [field] + [];
    }
  }

  lemma {:induction false} SplitJoin(fields: seq<string>, c: char)
    requires fields != [] && FreeOf(fields, c)
    ensures Split(Join(fields, c), [c]) == fields
  {
    if |fields| == 1 {
      SplitPlain(fields[0], "", c);
      assert fields[0] + "" == fields[0];
    } else {
      SplitJoin(fields[1..], c);
      var rest := [c] + Join(fields[1..], c);
      SplitPlain(fields[0], rest, c);
      assert rest[1..] == Join(fields[1..], c);
      assert fields[0] + [c] + Join(fields[1..], c) == fields[0] + rest;
    }
  }

  lemma {:induction false} JoinFreeOf(fields: seq<string>, c: char, x: char)
    requires fields != [] && FreeOf(fields, x) && x != c
    ensures x !in Join(fields, c)
  {
    if |fields| > 1 {
      JoinFreeOf(fields[1..], c, x);
    }
  }

  lemma LineOfFile(line: string, rest: string)
    requires NEWLINE !in line
    ensures FirstLine(line + [NEWLINE] + rest) == line && AfterLine(line + [NEWLINE] + rest) == rest
  {
    var data := line + [NEWLINE] + rest;
    LineParts(data, |line|);
    assert data[..|line|] == line && data[|line| + 1..] == rest;
  }

  /** A missing newline at the end of the file makes no difference. */
  lemma {:induction false} LastNewlineOptional(data: string)
    requires data != "" && data[|data| - 1] != NEWLINE
    ensures Lines(data + [NEWLINE]) == Lines(data)
    decreases |data|
  {
    var more := data + [NEWLINE];
    if k :| 0 <= k < |data| && data[k] == NEWLINE && forall j :: 0 <= j < k ==> data[j] != NEWLINE {
      LineParts(data, k);
      LineParts(more, k);
      assert more[..k] == data[..k] && more[k + 1..] == data[k + 1..] + [NEWLINE];
      LastNewlineOptional(data[k + 1..]);
    } else {
      NoNewline(data, |data|);
      LineParts(data, |data|);
      LineParts(more, |data|);
      assert more[..|data|] == data && more[|data| + 1..] == "";
    }
  }

  lemma {:induction false} NoNewline(data: string, n: nat)
    requires n <= |data|
    requires forall k :: 0 <= k < |data| && data[k] == NEWLINE ==> exists j :: 0 <= j < k && data[j] == NEWLINE
    ensures forall j :: 0 <= j < n ==> data[j] != NEWLINE
  {
    if n > 0 {
      NoNewline(data, n - 1);
    }
  }

  predicate Importable(row: seq<string>, c: char, nCol: nat) {
    0 < |row| <= nCol && FreeOf(row, c) && FreeOf(row, NEWLINE)
  }

  predicate AllImportable(rows: seq<seq<string>>, c: char, nCol: nat) {
    forall i :: 0 <= i < |rows| ==> Importable(rows[i], c, nCol)
  }

  function RowsOf(rows: seq<seq<string>>, nCol: nat, nullText: string): (r: seq<Row>)
    requires forall i :: 0 <= i < |rows| ==> |rows[i]| <= nCol
    ensures |r| == |rows| && forall i :: 0 <= i < |r| ==> IsRowOf(r[i], rows[i], nCol, nullText)
  {
    if rows == [] then [] else [RowOf(rows[0], nCol, nullText)] + RowsOf(rows[1..], nCol, nullText)
  }

  /** The table accepts new rows one after the other. */
  predicate AllAccepted(table: seq<Row>, added: seq<Row>, accepts: (seq<Row>, Row) -> bool)
    decreases |added|
  {
    added == [] || (accepts(table, added[0]) && AllAccepted(table + [added[0]], added[1..], accepts))
  }

  /** Importing the file made of joined rows inserts exactly those rows, or nothing if one of them is refused. */
  lemma {:induction false} ImportsJoinedRows(
      table: seq<Row>, rows: seq<seq<string>>, c: char, nCol: nat, nullText: string, accepts: (seq<Row>, Row) -> bool)
    requires c != NEWLINE && AllImportable(rows, c, nCol)
    ensures var lines := Lines(FileOf(rows, c));
      && |lines| == |rows|
      && Inserted(table, lines, [c], nCol, nullText, accepts)
         == if AllAccepted(table, RowsOf(rows, nCol, nullText), accepts)
            then Some(table + RowsOf(rows, nCol, nullText))
            else None
    decreases |rows|
  {
    hide Split, RowOf, FirstLine, AfterLine, FreeOf;
    if rows != [] {
      assert Importable(rows[0], c, nCol);
      JoinFreeOf(rows[0], c, NEWLINE);
      LineOfFile(Join(rows[0], c), FileOf(rows[1..], c));
      SplitJoin(rows[0], c);
      var row := RowOf(rows[0], nCol, nullText);
      var added, rest := RowsOf(rows, nCol, nullText), RowsOf(rows[1..], nCol, nullText);
      assert added[0] == row && added[1..] == rest;
      ImportsJoinedRows(table + [row], rows[1..], c, nCol, nullText, accepts);
      assert table + [row] + rest == table + added;
      var lines := Lines(FileOf(rows, c));
      assert lines[0] == Join(rows[0], c) && lines[1..] == Lines(FileOf(rows[1..], c));
    } else {
      assert table + [] == table;
    }
  }

  // ---------- Lines, fields and rows in terms of the text alone ----------

  /** A line ends at the first newline, or at the end of the file if that comes first. */
  lemma LinesOfText(line: string, rest: string)
    requires '\n' !in line
    ensures Lines(line + "\n" + rest) == [line] + Lines(rest)
    ensures Lines(line) == if line == "" then [] else [line]
  {
    LineOfFile(line, rest);
    LineParts(line, |line|);
  }

  predicate Matches(line: string, sep: string, k: nat) {
    k + |sep| <= |line| && line[k..k + |sep|] == sep
  }

  lemma MatchesTail(line: string, sep: string, k: nat)
    requires line != ""
    ensures Matches(line[1..], sep, k) <==> Matches(line, sep, k + 1)
    ensures sep <= line <==> Matches(line, sep, 0)
  {
    if k + 1 + |sep| <= |line| {
      assert line[1..][k..k + |sep|] == line[k + 1..k + 1 + |sep|];
    }
  }

  predicate FirstMatch(line: string, sep: string, k: nat) {
    Matches(line, sep, k) && forall j: nat :: j < k ==> !Matches(line, sep, j)
  }

  lemma FirstMatchTail(line: string, sep: string, k: nat)
    requires sep != "" && FirstMatch(line, sep, k) && k > 0
    ensures line != "" && !(sep <= line) && FirstMatch(line[1..], sep, k - 1)
  {
    hide Matches;
    MatchesInside(line, sep, k);
    MatchesTail(line, sep, k - 1);
    assert !Matches(line, sep, 0);
    forall j: nat | j < k - 1 ensures !Matches(line[1..], sep, j) {
      MatchesTail(line, sep, j);
    }
  }

  lemma MatchesInside(line: string, sep: string, k: nat)
    requires Matches(line, sep, k) && sep != ""
    ensures line != "" && k + |sep| <= |line|
  {
  }

  /** Cut at the first match of the separator, which may have any length, and then on from behind it. */
  lemma {:induction false} SplitAtFirstMatch(line: string, sep: string, k: nat)
    requires sep != "" && FirstMatch(line, sep, k)
    ensures k + |sep| <= |line| && Split(line, sep) == [line[..k]] + Split(line[k + |sep|..], sep)
    decreases |line|
  {
    MatchesInside(line, sep, k);
    if k > 0 {
      hide Split, FirstMatch, Prepended;
      FirstMatchTail(line, sep, k);
      SplitAtFirstMatch(line[1..], sep, k - 1);
      var head, tail := line[..k], line[k + |sep|..];
      assert line[1..][k - 1 + |sep|..] == tail && line[1..][..k - 1] == head[1..];
      assert [line[0]] + line[1..] == line && [head[0]] + head[1..] == head;
      SplitCons(line[0], line[1..], sep);
      PrependedOnto(line[0], head[1..], Split(tail, sep));
    } else {
      MatchesTail(line, sep, 0);
    }
  }

  /** Without a match the line is one field. */
  lemma {:induction false} SplitWithoutMatch(line: string, sep: string)
    requires sep != "" && forall j: nat :: !Matches(line, sep, j)
    ensures Split(line, sep) == [line]
    decreases |line|
  {
    if line != "" {
      MatchesTail(line, sep, 0);
      forall j: nat ensures !Matches(line[1..], sep, j) {
        MatchesTail(line, sep, j);
      }
      SplitWithoutMatch(line[1..], sep);
      hide Split, Matches, Prepended;
      assert [line[0]] + line[1..] == line && [line[1..]] + [] == [line[1..]] && [line] + [] == [line];
      SplitCons(line[0], line[1..], sep);
      PrependedOnto(line[0], line[1..], []);
    }
  }

  predicate IsRowOf(row: Row, fields: seq<string>, nCol: nat, nullText: string) {
    && |fields| <= nCol == |row|
    && forall j :: 0 <= j < nCol ==>
         row[j] == if j < |fields| && fields[j] != "" && !(nullText != "" && fields[j] == nullText)
                   then Some(fields[j]) else None
  }

  lemma OnlyRowOf(row: Row, fields: seq<string>, nCol: nat, nullText: string)
    requires |fields| <= nCol
    ensures IsRowOf(row, fields, nCol, nullText) <==> row == RowOf(fields, nCol, nullText)
  {
  }

  /**
   all has one row more than rows for each line: the line's fields, and NULL for those
   that are empty, missing or the null indicator; no line has too many fields, and each
   row was accepted after the ones before it.
   */
  ghost predicate OneRowPerLine(
      rows: seq<Row>, all: seq<Row>, lines: seq<string>, sep: string, nCol: nat, nullText: string,
      accepts: (seq<Row>, Row) -> bool)
    requires sep != ""
  {
    && |all| == |rows| + |lines| && all[..|rows|] == rows
    && forall k :: |rows| <= k < |all| ==>
         IsRowOf(all[k], Split(lines[k - |rows|], sep), nCol, nullText) && accepts(all[..k], all[k])
  }

  /** These are the rows after the import, which fails if there are none. */
  lemma {:induction false} InsertedExactly(
      rows: seq<Row>, all: seq<Row>, lines: seq<string>, sep: string, nCol: nat, nullText: string,
      accepts: (seq<Row>, Row) -> bool)
    requires sep != ""
    ensures Inserted(rows, lines, sep, nCol, nullText, accepts) == Some(all)
       <==> OneRowPerLine(rows, all, lines, sep, nCol, nullText, accepts)
    decreases |lines|
  {
    hide Split, IsRowOf, RowOf, OneRowPerLine;
    FirstRow(rows, all, lines, sep, nCol, nullText, accepts);
    if lines != [] && |Split(lines[0], sep)| <= nCol {
      var row := RowOf(Split(lines[0], sep), nCol, nullText);
      InsertedExactly(rows + [row], all, lines[1..], sep, nCol, nullText, accepts);
    }
  }

  lemma FirstRow(
      rows: seq<Row>, all: seq<Row>, lines: seq<string>, sep: string, nCol: nat, nullText: string,
      accepts: (seq<Row>, Row) -> bool)
    requires sep != ""
    ensures OneRowPerLine(rows, all, lines, sep, nCol, nullText, accepts) <==>
      if lines == [] then all == rows
      else
        var fields := Split(lines[0], sep);
        && |fields| <= nCol
        && var row := RowOf(fields, nCol, nullText);
           accepts(rows, row) && OneRowPerLine(rows + [row], all, lines[1..], sep, nCol, nullText, accepts)
  {
    hide Split, RowOf;
    var n := |rows|;
    if lines == [] {
      assert |all| == n ==> all[..n] == all;
    } else if |all| == n + |lines| && |Split(lines[0], sep)| <= nCol {
      var row := RowOf(Split(lines[0], sep), nCol, nullText);
      OnlyRowOf(all[n], Split(lines[0], sep), nCol, nullText);
      assert all[..n + 1] == all[..n] + [all[n]];
      assert all[..n + 1] == rows + [row] ==> all[..n] == all[..n + 1][..n] && all[n] == all[..n + 1][n];
      hide IsRowOf;
    }
  }
}
