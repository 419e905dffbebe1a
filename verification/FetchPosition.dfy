/**
 Forward-only fetching in sqlite3/generic/sqlite.c: a cursor over a statement that can
 only be stepped, against plain indexing of its rows.
 */
module FetchPosition {
  import opened Common

  /** The line argument of fetch: absent, the word current, or a number. */
  datatype Request = NextLine | CurrentLine | Line(k: int)

  datatype Outcome = Fetched(line: nat) | OutOfRange | Backwards | NegativeLine

  /** tuple is -1 before the first fetch; ended once the statement has reported its end. */
  datatype Cursor = Cursor(tuple: int, ended: bool)

  const BEFORE_FIRST := Cursor(-1, false)

  function Target(c: Cursor, r: Request): int {
    match r
    case NextLine => c.tuple + 1
    case CurrentLine => c.tuple
    case Line(k) => k
  }

  /** What a fetch does to the cursor of a statement with n rows. */
  function AfterFetch(n: nat, c: Cursor, r: Request): (Cursor, Outcome) {
    var target, position := Target(c, r), Max(c.tuple, 0);
    if target < 0 then (c, NegativeLine)
    else if c.ended && position <= target then (c, OutOfRange)
    else if target < position then (c.(tuple := position), Backwards)
    else if target == position || target < n then (c.(tuple := target), Fetched(target))
    else (Cursor(Max(n - 1, 0), true), OutOfRange)
  }

  /** How many lines a fetch may claim: an empty result passes for one with a line 0. */
  function Claimed(n: nat): nat {
    Max(n, 1)
  }

  predicate Reachable(n: nat, c: Cursor) {
    && -1 <= c.tuple < Claimed(n)
    && (c.ended ==> c.tuple == Claimed(n) - 1)
  }

  // ---------- Properties of every run ----------

  function CursorAfter(n: nat, c: Cursor, requests: seq<Request>): Cursor
    decreases |requests|
  {
    if requests == [] then c else CursorAfter(n, AfterFetch(n, c, requests[0]).0, requests[1..])
  }

  lemma {:induction false} RunStaysReachable(n: nat, c: Cursor, requests: seq<Request>)
    requires Reachable(n, c)
    ensures Reachable(n, CursorAfter(n, c, requests))
    ensures c.tuple <= CursorAfter(n, c, requests).tuple
    ensures c.ended ==> CursorAfter(n, c, requests) == c
    decreases |requests|
  {
    if requests != [] {
      RunStaysReachable(n, AfterFetch(n, c, requests[0]).0, requests[1..]);
    }
  }

  /**
   In every run, with c where it has come to: a fetch asks for a line, which is the given
   number, the one after the cursor or the one at it.  It gets that line exactly when it is
   among those that may be claimed, is not behind the cursor and the end has not been
   reported; which of the three errors it gets otherwise; and where the cursor is then.
   */
  lemma FetchedExactly(n: nat, requests: seq<Request>, r: Request)
    ensures var c := CursorAfter(n, BEFORE_FIRST, requests);
      var line := match r case NextLine => c.tuple + 1 case CurrentLine => c.tuple case Line(k) => k;
      var at, last := if c.tuple < 0 then 0 else c.tuple, if n == 0 then 0 else n - 1;
      var (c', outcome) := AfterFetch(n, c, r);
      && (outcome.Fetched? <==> !c.ended && at <= line <= last)
      && (outcome.Fetched? ==> outcome.line == line && c' == Cursor(line, false))
      && (outcome == NegativeLine <==> line < 0)
      && (outcome == NegativeLine ==> c' == c)
      && (outcome == Backwards <==> 0 <= line < at)
      && (outcome == Backwards ==> c' == Cursor(at, c.ended))
      && (outcome == OutOfRange <==> line >= 0 && (line > last || (c.ended && line >= at)))
      && (outcome == OutOfRange ==> c' == Cursor(last, true))
  {
    RunStaysReachable(n, BEFORE_FIRST, requests);
  }

  ghost predicate FetchesOnlyRows(n: nat) {
    forall requests: seq<Request>, r: Request ::
      var outcome := AfterFetch(n, CursorAfter(n, BEFORE_FIRST, requests), r).1;
      outcome.Fetched? ==> outcome.line < n
  }

  /** In every run every fetched line is a row of the result, if and only if the result has rows. */
  lemma FetchedLinesExistExactly(n: nat)
    ensures FetchesOnlyRows(n) <==> n > 0
  {
    if n > 0 {
      forall requests: seq<Request>, r: Request
        ensures var outcome := AfterFetch(n, CursorAfter(n, BEFORE_FIRST, requests), r).1;
          outcome.Fetched? ==> outcome.line < n
      {
        FetchedExactly(n, requests, r);
      }
    } else {
      assert CursorAfter(n, BEFORE_FIRST, []) == BEFORE_FIRST;
      assert AfterFetch(n, CursorAfter(n, BEFORE_FIRST, []), NextLine).1 == Fetched(0);
    }
  }

  /** Fetches without a line argument visit the lines that may be claimed in order, and then fail. */
  lemma {:induction false} NextVisitsAll(n: nat, k: nat)
    ensures var c, lines := CursorAfter(n, BEFORE_FIRST, seq(k, _ => NextLine)), Claimed(n);
      && c == (if k <= lines then Cursor(k - 1, false) else Cursor(lines - 1, true))
      && AfterFetch(n, c, NextLine).1 == if k < lines then Fetched(k) else OutOfRange
  {
    if k > 0 {
      NextVisitsAll(n, k - 1);
      var before := seq(k - 1, _ => NextLine);
      assert seq(k, _ => NextLine) == before + [NextLine];
      RunSnoc(n, BEFORE_FIRST, before, NextLine);
    }
  }

  lemma {:induction false} RunSnoc(n: nat, c: Cursor, requests: seq<Request>, r: Request)
    ensures CursorAfter(n, c, requests + [r]) == AfterFetch(n, CursorAfter(n, c, requests), r).0
    decreases |requests|
  {
    if requests == [] {
      assert [] + [r] == [r] && [r][1..] == [];
    } else {
      assert (requests + [r])[1..] == requests[1..] + [r];
      RunSnoc(n, AfterFetch(n, c, requests[0]).0, requests[1..], r);
    }
  }

  // ---------- The statement and the fetch ----------

  class Fetcher<Row> {
    const rows: seq<Row>
    var returned: nat  // how many rows sqlite3_step has returned
    var done: bool     // it has returned SQLITE_DONE
    var restarts: nat  // how often it was called after that, which runs the statement again
    var tuple: int
    var ntuples: int

    /** After exec with -usefetch: the statement has been stepped once. */
    constructor (rows: seq<Row>)
      ensures this.rows == rows && Valid() && View() == BEFORE_FIRST && restarts == 0
    {
      this.rows := rows;
      returned := if rows == [] then 0 else 1;
      done := rows == [];
      restarts := 0;
      tuple := -1;
      ntuples := -1;
    }

    ghost function View(): Cursor
      reads this
    {
      Cursor(tuple, ntuples != -1)
    }

    /**
     The statement stands on the line the cursor is at, until it has ended.  Without rows
     it ended in exec, which the cursor does not know until it has restarted the statement.
     */
    ghost predicate Valid()
      reads this
    {
      && Reachable(|rows|, View()) && (ntuples == -1 || ntuples == tuple)
      && if rows == [] then done && returned == 0 && restarts == (if ntuples == -1 then 0 else 1)
         else done == (ntuples != -1) && returned == Max(tuple, 0) + 1 <= |rows| && restarts == 0
    }

    /** sqlite3_step */
    method Step() returns (row: bool)
      requires returned <= |rows| && (done ==> rows == [])
      modifies this`returned, this`done, this`restarts
      ensures row == (old(returned) < |rows|) == !done
      ensures returned == old(returned) + if row then 1 else 0
      ensures restarts == old(restarts) + if old(done) then 1 else 0
    {
      if done { restarts := restarts + 1; }
      row := returned < |rows|;
      if row { returned := returned + 1; } else { done := true; }
    }

    /** The row of the line that is reported as fetched; a result without rows has none to give. */
    method Fetch(request: Request) returns (outcome: Outcome, row: seq<Row>)
      requires Valid()
      modifies this
      ensures Valid()
      ensures (View(), outcome) == AfterFetch(|rows|, old(View()), request)
      ensures outcome.Fetched? ==> row == if rows == [] then [] else [rows[outcome.line]]
      ensures
        var line := match request case NextLine => old(tuple) + 1 case CurrentLine => old(tuple) case Line(k) => k;
        && (outcome.Fetched? ==> outcome.line == tuple == line)
        && (outcome == NegativeLine <==> line < 0)
      ensures restarts == old(restarts) + if rows == [] && View().ended && !old(View().ended) then 1 else 0
    {
      row := [];
      var ituple := -1;
      match request {
        case NextLine =>
        case CurrentLine =>
          ituple := tuple;
          if ituple < 0 { return NegativeLine, row; }
        case Line(k) =>
          ituple := k;
          if ituple < 0 { return NegativeLine, row; }
      }
      if ituple == -1 {
        ituple := tuple + 1;
        if tuple == -1 { tuple := 0; }
      } else {
        if tuple == -1 { tuple := 0; }
      }
      if ntuples != -1 && ituple >= ntuples {
        return OutOfRange, row;
      }
      if ituple != tuple {
        if ituple < tuple {
          return Backwards, row;
        }
        while tuple < ituple
          invariant 0 <= tuple <= ituple && tuple < Claimed(|rows|) && ntuples == -1 && restarts == 0
          invariant if rows == [] then done && returned == 0 && tuple == 0 else !done && returned == tuple + 1
          decreases ituple - tuple
        {
          var more := Step();
          if !more {
            ntuples := tuple;
            return OutOfRange, row;
          }
          tuple := tuple + 1;
        }
      }
      if returned > 0 { row := [rows[returned - 1]]; }
      return Fetched(ituple), row;
    }
  }
}
