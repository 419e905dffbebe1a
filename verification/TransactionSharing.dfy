/**
 A Firebird connection and its clones as values: one transaction and one autocommit flag
 for all, and for each member the transaction in which its open result set or blob was
 opened.  Full commits and rollbacks end a transaction and whatever was opened in it.
 */
module TransactionSharing {
  import opened Common

  /** The number of the transaction in which the open cursor, and the open blob, was opened. */
  datatype Member = Member(cursor: Option<nat>, blob: Option<nat>)

  /** members[0] is the parent; started counts the transactions. */
  datatype Family = Family(trans: Option<nat>, started: nat, autocommit: bool, members: seq<Member>)

  predicate Alive(since: Option<nat>, trans: Option<nat>) {
    since.Some? ==> trans == since
  }

  /** Every cursor or blob that is marked open belongs to the live transaction. */
  ghost predicate AllAlive(f: Family) {
    && (forall k :: 0 <= k < |f.members| ==> Alive(f.members[k].cursor, f.trans) && Alive(f.members[k].blob, f.trans))
    && (f.trans.Some? ==> f.trans.value <= f.started)
  }

  /** No other member has an open cursor and no member at all has an open blob. */
  ghost predicate NobodyElse(f: Family, w: int) {
    forall k {:trigger Spares(f, w, k)} {:trigger f.members[k]} :: 0 <= k < |f.members| ==> Spares(f, w, k)
  }

  /** A full commit by member w throws away nothing of member k, apart from w's own cursor. */
  predicate Spares(f: Family, w: int, k: int)
    requires 0 <= k < |f.members|
  {
    (k == w || f.members[k].cursor.None?) && f.members[k].blob.None?
  }

  // ---------- The operations of member w ----------

  function SetCursor(f: Family, w: nat, cursor: Option<nat>): Family
    requires w < |f.members|
  {
    f.(members := f.members[w := f.members[w].(cursor := cursor)])
  }

  function SetBlob(f: Family, w: nat, blob: Option<nat>): Family
    requires w < |f.members|
  {
    f.(members := f.members[w := f.members[w].(blob := blob)])
  }

  /** A commit that retains the transaction if that is what keeps something open. */
  ghost function Commit(f: Family, w: nat): Family {
    if NobodyElse(f, w) then End(f) else f
  }

  /** A full commit or a rollback. */
  function End(f: Family): Family {
    f.(trans := None)
  }

  function Start(f: Family): Family {
    if f.trans.Some? then f else f.(trans := Some(f.started + 1), started := f.started + 1)
  }

  ghost function CommitIfAny(f: Family, w: nat): Family {
    if f.autocommit && f.trans.Some? then Commit(f, w) else f
  }

  ghost function Autocommit(f: Family, w: nat): Family
    requires w < |f.members|
  {
    var closed := SetCursor(f, w, None);
    if f.autocommit then Start(CommitIfAny(closed, w)) else closed
  }

  /** A single statement that succeeds: does it return rows, and are they left to be fetched? */
  ghost function Exec(f: Family, w: nat, rows: bool, useFetch: bool): Family
    requires w < |f.members|
  {
    var ran := Autocommit(f, w);
    if rows && useFetch then SetCursor(ran, w, ran.trans) else CommitIfAny(ran, w)
  }

  ghost function OpenBlob(f: Family, w: nat): Family
    requires w < |f.members|
  {
    var ready := Autocommit(SetBlob(f, w, None), w);
    SetBlob(ready, w, ready.trans)
  }

  function CloseBlob(f: Family, w: nat): Family
    requires w < |f.members|
  {
    SetBlob(f, w, None)
  }

  function AddClone(f: Family): Family {
    f.(members := f.members + [Member(None, None)])
  }

  function CloseClone(f: Family, w: nat): Family
    requires 0 < w < |f.members|
  {
    f.(members := f.members[..w] + f.members[w + 1..])
  }

  /** begin */
  function Begin(f: Family): Family {
    Start(if f.trans.Some? then End(f) else f).(autocommit := false)
  }

  /** commit and rollback */
  function EndTransaction(f: Family, w: nat): Family
    requires w < |f.members|
  {
    var closed := SetCursor(f.(autocommit := true), w, None);
    if f.trans.Some? then End(closed) else closed
  }

  // ---------- Runs ----------

  datatype Op =
    | DoExec(w: nat, rows: bool, useFetch: bool)
    | DoOpenBlob(w: nat)
    | DoCloseBlob(w: nat)
    | DoClone(w: nat)
    | DoCloseClone(w: nat)

  predicate Possible(f: Family, op: Op) {
    op.w < |f.members| && (op.DoCloseClone? ==> op.w != 0)
  }

  ghost function Step(f: Family, op: Op): Family {
    if !Possible(f, op) then f
    else
      match op
      case DoExec(w, rows, useFetch) => Exec(f, w, rows, useFetch)
      case DoOpenBlob(w) => OpenBlob(f, w)
      case DoCloseBlob(w) => CloseBlob(f, w)
      case DoClone(_) => AddClone(f)
      case DoCloseClone(w) => CloseClone(f, w)
  }

  ghost function Run(f: Family, ops: seq<Op>): Family
    decreases |ops|
  {
    if ops == [] then f else Run(Step(f, ops[0]), ops[1..])
  }

  const FRESH := Family(None, 0, true, [Member(None, None)])

  lemma AutocommitKeepsAlive(f: Family, w: nat)
    requires AllAlive(f) && f.autocommit && w < |f.members|
    ensures var g := Autocommit(f, w);
      && AllAlive(g) && g.trans.Some? && g.autocommit
      && g.members == f.members[w := f.members[w].(cursor := None)]
  {
  }

  lemma ExecKeepsAlive(f: Family, w: nat, rows: bool, useFetch: bool)
    requires AllAlive(f) && f.autocommit && w < |f.members|
    ensures var g := Exec(f, w, rows, useFetch); AllAlive(g) && g.autocommit && |g.members| == |f.members|
  {
    AutocommitKeepsAlive(f, w);
  }

  lemma OpenBlobKeepsAlive(f: Family, w: nat)
    requires AllAlive(f) && f.autocommit && w < |f.members|
    ensures var g := OpenBlob(f, w); AllAlive(g) && g.autocommit && |g.members| == |f.members|
  {
    AutocommitKeepsAlive(SetBlob(f, w, None), w);
  }

  lemma StepKeepsAlive(f: Family, op: Op)
    requires AllAlive(f) && f.autocommit && f.members != []
    ensures AllAlive(Step(f, op)) && Step(f, op).autocommit && Step(f, op).members != []
  {
    if Possible(f, op) {
      match op {
        case DoExec(w, rows, useFetch) => ExecKeepsAlive(f, w, rows, useFetch);
        case DoOpenBlob(w) => OpenBlobKeepsAlive(f, w);
        case _ =>
      }
    }
  }

  lemma {:induction false} RunKeepsAlive(f: Family, ops: seq<Op>)
    requires AllAlive(f) && f.autocommit && f.members != []
    ensures AllAlive(Run(f, ops)) && Run(f, ops).autocommit && Run(f, ops).members != []
    decreases |ops|
  {
    if ops != [] {
      StepKeepsAlive(f, ops[0]);
      RunKeepsAlive(Step(f, ops[0]), ops[1..]);
    }
  }

  /** Whatever is open after any run in autocommit mode was opened in the live transaction. */
  lemma AliveInEveryRun(ops: seq<Op>)
    ensures AllAlive(Run(FRESH, ops))
  {
    RunKeepsAlive(FRESH, ops);
  }

  // ---------- Result sets survive ----------

  /** The index of member j after an operation of another member. */
  function IndexAfter(f: Family, op: Op, j: int): int {
    if Possible(f, op) && op.DoCloseClone? && op.w < j then j - 1 else j
  }

  /** Cloning is harmless whoever does it. */
  predicate ByOther(op: Op, j: int) {
    op.DoClone? || op.w != j
  }

  ghost predicate NeverBy(f: Family, ops: seq<Op>, j: int)
    decreases |ops|
  {
    if ops == [] then true
    else ByOther(ops[0], j) && NeverBy(Step(f, ops[0]), ops[1..], IndexAfter(f, ops[0], j))
  }

  ghost function IndexAfterRun(f: Family, ops: seq<Op>, j: int): int
    decreases |ops|
  {
    if ops == [] then j else IndexAfterRun(Step(f, ops[0]), ops[1..], IndexAfter(f, ops[0], j))
  }

  lemma StepSparesOthers(f: Family, op: Op, j: nat)
    requires j < |f.members| && ByOther(op, j)
    ensures var i := IndexAfter(f, op, j);
      0 <= i < |Step(f, op).members| && Step(f, op).members[i] == f.members[j]
  {
  }

  /** A member that does nothing keeps its result set and blob, and their transaction, whatever the others run. */
  lemma {:induction false} RunSparesOthers(f: Family, ops: seq<Op>, j: nat)
    requires AllAlive(f) && f.autocommit && j < |f.members| && NeverBy(f, ops, j)
    ensures var g, i := Run(f, ops), IndexAfterRun(f, ops, j);
      && 0 <= i < |g.members| && g.members[i] == f.members[j]
      && (f.members[j] != Member(None, None) ==> g.trans == f.trans)
    decreases |ops|
  {
    if ops != [] {
      var g := Step(f, ops[0]);
      StepKeepsAlive(f, ops[0]);
      StepSparesOthers(f, ops[0], j);
      var i := IndexAfter(f, ops[0], j);
      assert Alive(g.members[i].cursor, g.trans) && Alive(g.members[i].blob, g.trans);
      assert Alive(f.members[j].cursor, f.trans) && Alive(f.members[j].blob, f.trans);
      RunSparesOthers(g, ops[1..], i);
    }
  }

  // ---------- Explicit transactions ----------

  /** begin leaves only live cursors and blobs exactly when none is open at all. */
  lemma BeginKeepsAliveExactly(f: Family)
    requires AllAlive(f)
    ensures AllAlive(Begin(f)) <==> forall k :: 0 <= k < |f.members| ==> f.members[k] == Member(None, None)
  {
    var g := Begin(f);
    if k :| 0 <= k < |f.members| && f.members[k] != Member(None, None) {
      assert Alive(f.members[k].cursor, f.trans) && Alive(f.members[k].blob, f.trans);
      assert !Alive(g.members[k].cursor, g.trans) || !Alive(g.members[k].blob, g.trans);
    }
  }

  /** commit and rollback leave only live ones exactly when no other cursor and no blob is open. */
  lemma EndKeepsAliveExactly(f: Family, w: nat)
    requires AllAlive(f) && w < |f.members|
    ensures AllAlive(EndTransaction(f, w)) <==> NobodyElse(f, w)
  {
    var g := EndTransaction(f, w);
    if k :| 0 <= k < |f.members| && !Spares(f, w, k) {
      assert !Alive(g.members[k].cursor, g.trans) || !Alive(g.members[k].blob, g.trans);
    }
  }

  // ---------- What the operations leave behind ----------

  lemma NobodyElseMeans(f: Family, w: nat, others: seq<Member>)
    requires |others| == |f.members| && w < |others|
    requires forall k :: 0 <= k < |others| ==>
      others[k].blob == f.members[k].blob && (k == w || others[k].cursor == f.members[k].cursor)
    ensures NobodyElse(f, w) <==>
      forall k :: 0 <= k < |others| ==> others[k].blob == None && (k == w || others[k].cursor == None)
  {
    if NobodyElse(f, w) {
      forall k | 0 <= k < |others| ensures others[k].blob == None && (k == w || others[k].cursor == None) {
        assert Spares(f, w, k);
      }
    }
  }

  /**
   The step before a statement of w under autocommit.  It commits fully, and so goes on in
   a new transaction, if and only if no other member has an open result set and no member
   at all an open blob.
   */
  lemma AutocommitExactly(f: Family, w: nat)
    requires f.autocommit && w < |f.members|
    ensures var g := Autocommit(f, w);
      var idle := forall k :: 0 <= k < |f.members| ==>
        f.members[k].blob == None && (k == w || f.members[k].cursor == None);
      && g.trans == Some(if f.trans.Some? && !idle then f.trans.value else f.started + 1) && g.autocommit
      && g.started == (if f.trans.Some? && !idle then f.started else f.started + 1)
      && g.members == f.members[w := Member(None, f.members[w].blob)]
  {
    NobodyElseMeans(SetCursor(f, w, None), w, f.members);
    hide NobodyElse;
  }

  /**
   A statement under autocommit.  The commit after it is left out if its rows are still to
   be fetched, and otherwise is full under the same condition.
   */
  lemma ExecExactly(f: Family, w: nat, rows: bool, useFetch: bool)
    requires f.autocommit && w < |f.members|
    ensures var g := Exec(f, w, rows, useFetch);
      var idle := forall k :: 0 <= k < |f.members| ==>
        f.members[k].blob == None && (k == w || f.members[k].cursor == None);
      var now := if f.trans.Some? && !idle then f.trans.value else f.started + 1;
      && g.trans == (if idle && !(rows && useFetch) then None else Some(now)) && g.autocommit
      && g.started == (if f.trans.Some? && !idle then f.started else f.started + 1)
      && g.members == f.members[w := Member(if rows && useFetch then Some(now) else None, f.members[w].blob)]
  {
    AutocommitExactly(f, w);
    NobodyElseMeans(Autocommit(f, w), w, f.members);
    hide NobodyElse, Autocommit;
  }

  /** Opening a blob: the own blob is closed before, and does not keep the last transaction. */
  lemma OpenBlobExactly(f: Family, w: nat)
    requires f.autocommit && w < |f.members|
    ensures var g := OpenBlob(f, w);
      var idle := forall k :: 0 <= k < |f.members| ==> k == w || f.members[k] == Member(None, None);
      var now := if f.trans.Some? && !idle then f.trans.value else f.started + 1;
      && g.trans == Some(now) && g.autocommit
      && g.started == (if f.trans.Some? && !idle then f.started else f.started + 1)
      && g.members == f.members[w := Member(None, Some(now))]
  {
    var closed := SetBlob(f, w, None);
    AutocommitExactly(closed, w);
    assert forall k :: 0 <= k < |f.members| && k != w ==> closed.members[k] == f.members[k];
    if forall k :: 0 <= k < |closed.members| ==>
         closed.members[k].blob == None && (k == w || closed.members[k].cursor == None) {
      forall k | 0 <= k < |f.members| && k != w ensures f.members[k] == Member(None, None) {
        assert closed.members[k].blob == None;
      }
    }
    hide Autocommit;
  }

  /** In an explicit transaction a statement commits nothing and starts nothing. */
  lemma ExecWithin(f: Family, w: nat, rows: bool, useFetch: bool)
    requires !f.autocommit && w < |f.members|
    ensures var cursor := if rows && useFetch then f.trans else None;
      Exec(f, w, rows, useFetch) == f.(members := f.members[w := Member(cursor, f.members[w].blob)])
  {
  }

  /** begin always starts a new transaction; commit and rollback always leave none, and autocommit on. */
  lemma ExplicitExactly(f: Family, w: nat)
    requires w < |f.members|
    ensures Begin(f) == Family(Some(f.started + 1), f.started + 1, false, f.members)
    ensures EndTransaction(f, w)
         == Family(None, f.started, true, f.members[w := Member(None, f.members[w].blob)])
  {
  }
}
