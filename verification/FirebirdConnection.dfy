/**
 The connection objects of firebird/generic/firebird.c: a parent and the clones that share
 its transaction and its autocommit flag.
 */
module FirebirdConnection {
  import opened Common
  import opened TransactionSharing

  class Connection {
    var parent: Connection?
    var clones: seq<Connection>
    var trans: Option<nat>  // the transaction handle; a clone's own one is never used
    var started: nat        // the server's count of transactions started on this attachment
    var autocommit: bool
    var cursorOpen: bool
    var blobOpen: bool
    ghost var cursorSince: nat  // the transaction in which the open cursor was opened
    ghost var blobSince: nat

    constructor ()
      ensures parent == null && clones == [] && Valid()
      ensures View() == FRESH && Self() == Member(None, None)
    {
      parent := null;
      clones := [];
      trans := None;
      started := 0;
      autocommit := true;
      cursorOpen := false;
      blobOpen := false;
    }

    function Root(): Connection
      reads this`parent
    {
      if parent == null then this else parent
    }

    /** A parent whose clones are distinct and have it as their parent, and no clones of their own. */
    ghost predicate Flat()
      reads this`parent, this`clones, clones`parent, clones`clones
    {
      && parent == null
      && (forall i :: 0 <= i < |clones| ==> clones[i].parent == this && clones[i].clones == [])
      && (forall i, j :: 0 <= i < j < |clones| ==> clones[i] != clones[j])
    }

    ghost predicate Valid()
      reads this`parent, Root()`parent, Root()`clones, Root().clones`parent, Root().clones`clones
    {
      Root().Flat() && (parent != null ==> this in Root().clones)
    }

    ghost function Members(): seq<Connection>
      reads this`parent, Root()`clones
    {
      [Root()] + Root().clones
    }

    /** This is member w of a flat family. */
    ghost predicate IsMember(w: nat)
      reads this`parent, Root()`parent, Root()`clones, Root().clones`parent, Root().clones`clones
    {
      Valid() && w < |Members()| && Members()[w] == this
    }

    ghost function Self(): Member
      reads this`cursorOpen, this`cursorSince, this`blobOpen, this`blobSince
    {
      Member(if cursorOpen then Some(cursorSince) else None, if blobOpen then Some(blobSince) else None)
    }

    static ghost function Snapshot(members: seq<Connection>): (s: seq<Member>)
      reads members`cursorOpen, members`cursorSince, members`blobOpen, members`blobSince
      ensures |s| == |members| && forall k :: 0 <= k < |s| ==> s[k] == members[k].Self()
    {
      if members == [] then []
      else Snapshot(members[..|members| - 1]) + [members[|members| - 1].Self()]
    }

    ghost function View(): Family
      reads this, Root(), Root().clones
    {
      Family(Root().trans, Root().started, Root().autocommit, Snapshot(Members()))
    }

    // ---------- The shared state ----------

    function AutocommitState(): bool
      reads this, parent
    {
      if parent != null then parent.autocommit else autocommit
    }

    method AutocommitSet(state: bool, ghost w: nat)
      requires IsMember(w)
      modifies Root()`autocommit
      ensures IsMember(w) && View() == old(View()).(autocommit := state)
    {
      hide Snapshot, Flat;
      if parent != null {
        parent.autocommit := state;
      } else {
        autocommit := state;
      }
    }

    function Trans(): Option<nat>
      reads this, parent
    {
      if parent != null then parent.trans else trans
    }

    /** All members of a family see the same flag and the same transaction. */
    lemma SharedState(w: nat)
      requires Valid() && w < |Members()|
      ensures Members()[w].IsMember(w) && Members()[w].Members() == Members()
      ensures Members()[w].AutocommitState() == AutocommitState() == View().autocommit
      ensures Members()[w].Trans() == Trans() == View().trans
    {
    }

    // ---------- Transactions ----------

    method FreeStmt(ghost w: nat)
      requires IsMember(w)
      modifies this`cursorOpen
      ensures IsMember(w) && !cursorOpen && View() == SetCursor(old(View()), w, None)
    {
      hide Snapshot, Flat;
      OwnEntry(w);
      cursorOpen := false;
      OnlyOwnEntry(w);
    }

    /** Members are distinct, so changing this one changes entry w alone. */
    twostate lemma OnlyOwnEntry(w: nat)
      requires old(IsMember(w)) && IsMember(w) && Members() == old(Members())
      requires forall k :: 0 <= k < |Members()| && Members()[k] != this ==>
        Members()[k].Self() == old(Members()[k].Self())
      ensures View().members == old(View()).members[w := Self()]
    {
      hide Snapshot;
    }

    lemma OwnEntry(w: nat)
      requires IsMember(w)
      ensures w < |View().members| && View().members[w] == Self() && |View().members| == |Members()|
    {
    }

    /** The checks that a full commit would not throw away anything of the others. */
    method MayCommitFully(ghost w: nat) returns (noretain: bool)
      requires IsMember(w)
      ensures noretain <==> NobodyElse(View(), w)
    {
      ghost var f := View();
      assert f.members[0] == Root().Self() && f.members[w] == Self();
      if blobOpen {
        assert !Spares(f, w, w);
        return false;
      } else if parent == null && |clones| == 0 {
        return true;
      }
      noretain := true;
      var p: Connection;
      if parent == null {
        p := this;
        assert w == 0;
      } else {
        p := parent;
        assert w != 0 && p == Members()[0];
        if p.cursorOpen { noretain := false; }
        if p.blobOpen { noretain := false; }
      }
      assert noretain <==> Spares(f, w, 0);
      var i := 0;
      while i < |p.clones|
        invariant 0 <= i <= |p.clones|
        invariant noretain <==> forall k :: 0 <= k <= i ==> Spares(f, w, k)
      {
        assert f.members[i + 1] == p.clones[i].Self();
        assert p.clones[i] == this <==> i + 1 == w;
        if p.clones[i].blobOpen || (p.clones[i] != this && p.clones[i].cursorOpen) {
          assert !Spares(f, w, i + 1);
          return false;
        }
        i := i + 1;
      }
    }

    method TransactionCommit(noretain0: bool, ghost w: nat)
      requires IsMember(w) && Trans() != None
      modifies Root()`trans
      ensures IsMember(w)
      ensures View() == if noretain0 then End(old(View())) else TransactionSharing.Commit(old(View()), w)
    {
      hide Snapshot, NobodyElse, Flat;
      var noretain := noretain0;
      if !noretain {
        noretain := MayCommitFully(w);
      }
      if noretain {
        Root().trans := None;  // isc_commit_transaction; isc_commit_retaining keeps the handle
      }
    }

    /** isc_rollback_transaction, unless there is no transaction */
    method TransactionRollback(ghost w: nat)
      requires IsMember(w)
      modifies Root()`trans
      ensures IsMember(w) && View() == if old(View()).trans.Some? then End(old(View())) else old(View())
    {
      hide Snapshot, Flat;
      if Trans() == None { return; }
      Root().trans := None;
    }

    /** isc_start_transaction on a null handle gives it the next transaction. */
    method TransactionStart(ghost w: nat)
      requires IsMember(w)
      modifies Root()`trans, Root()`started
      ensures IsMember(w) && View() == Start(old(View()))
    {
      hide Snapshot, Flat;
      if Trans() != None { return; }
      Root().started := Root().started + 1;
      Root().trans := Some(Root().started);
    }

    method AutocommitStep(ghost w: nat)
      requires IsMember(w)
      modifies this`cursorOpen, Root()`trans, Root()`started
      ensures IsMember(w) && View() == Autocommit(old(View()), w)
    {
      hide Snapshot, Flat, NobodyElse;
      OwnEntry(w);
      if AutocommitState() {
        if cursorOpen { FreeStmt(w); }
        assert View() == SetCursor(old(View()), w, None);
        if Trans() != None {
          TransactionCommit(false, w);
        }
        TransactionStart(w);
      } else {
        if cursorOpen { FreeStmt(w); }
      }
    }

    // ---------- Statements and blobs ----------

    /** A successful isc_dsql_execute; a query opens the cursor in the current transaction. */
    method ProcessStatement(rows: bool, ghost w: nat)
      requires IsMember(w) && Trans().Some?
      modifies this`cursorOpen, this`cursorSince
      ensures IsMember(w)
      ensures View() == if rows then SetCursor(old(View()), w, Trans()) else old(View())
    {
      hide Snapshot, Flat;
      OwnEntry(w);
      if rows {
        cursorOpen := true;
        cursorSince := Trans().value;
      }
      OnlyOwnEntry(w);
    }

    method CommitStep(ghost w: nat)
      requires IsMember(w)
      modifies Root()`trans
      ensures IsMember(w) && View() == CommitIfAny(old(View()), w)
    {
      hide Snapshot, Flat, NobodyElse;
      if AutocommitState() && Trans() != None {
        TransactionCommit(false, w);
      }
    }

    /** A single statement; the server cannot run one when there is no transaction. */
    method Exec(rows: bool, useFetch: bool, ghost w: nat) returns (ok: bool)
      requires IsMember(w)
      modifies this`cursorOpen, this`cursorSince, Root()`trans, Root()`started
      ensures IsMember(w) && (ok <==> old(View().autocommit || View().trans.Some?))
      ensures View()
           == if ok then TransactionSharing.Exec(old(View()), w, rows, useFetch) else SetCursor(old(View()), w, None)
    {
      hide Snapshot, Flat, NobodyElse, CommitIfAny;
      ghost var f := View();
      OwnEntry(w);
      if cursorOpen { FreeStmt(w); }
      assert View() == SetCursor(f, w, None);
      ghost var closed := View();
      AutocommitStep(w);
      CloseTwice(f, w);
      ok := Trans() != None;
      if !ok { return; }
      ghost var ready := View();
      ProcessStatement(rows, w);
      if rows {
        if !useFetch {
          if cursorOpen { FreeStmt(w); }
          ReopenAndClose(ready, w, Trans());
          CommitStep(w);
        }
      } else {
        CommitStep(w);
      }
    }

    method OpenBlob(ghost w: nat) returns (ok: bool)
      requires IsMember(w)
      modifies this`cursorOpen, this`blobOpen, this`blobSince, Root()`trans, Root()`started
      ensures IsMember(w) && (ok <==> old(View().autocommit || View().trans.Some?))
      ensures ok ==> View() == TransactionSharing.OpenBlob(old(View()), w)
      ensures !ok ==> View() == SetCursor(SetBlob(old(View()), w, None), w, None)
    {
      hide Snapshot, Flat, NobodyElse, CommitIfAny;
      ghost var f := View();
      OwnEntry(w);
      if blobOpen { CloseBlob(w); }
      assert View() == SetBlob(f, w, None);
      CloseTwice(View(), w);
      AutocommitStep(w);
      ok := Trans() != None;
      if !ok { return; }
      MarkBlobOpen(w);
    }

    method CloseBlob(ghost w: nat)
      requires IsMember(w)
      modifies this`blobOpen
      ensures IsMember(w) && !blobOpen && View() == TransactionSharing.CloseBlob(old(View()), w)
    {
      hide Snapshot, Flat;
      OwnEntry(w);
      if blobOpen { blobOpen := false; }
      OnlyOwnEntry(w);
    }

    /** What a successful isc_open_blob2 does. */
    method MarkBlobOpen(ghost w: nat)
      requires IsMember(w) && Trans().Some?
      modifies this`blobOpen, this`blobSince
      ensures IsMember(w) && View() == SetBlob(old(View()), w, Trans())
    {
      hide Snapshot, Flat;
      OwnEntry(w);
      blobOpen := true;
      blobSince := Trans().value;
      OnlyOwnEntry(w);
    }

    // ---------- Explicit transactions ----------

    method Begin(ghost w: nat)
      requires IsMember(w)
      modifies Root()`trans, Root()`started, Root()`autocommit
      ensures IsMember(w) && View() == TransactionSharing.Begin(old(View()))
    {
      hide Snapshot, Flat;
      if Trans() != None {
        TransactionCommit(true, w);
      }
      TransactionStart(w);
      AutocommitSet(false, w);
    }

    method Commit(ghost w: nat)
      requires IsMember(w)
      modifies this`cursorOpen, Root()`trans, Root()`autocommit
      ensures IsMember(w) && View() == EndTransaction(old(View()), w)
    {
      hide Snapshot, Flat;
      ghost var f := View();
      OwnEntry(w);
      AutocommitSet(true, w);
      if cursorOpen { FreeStmt(w); }
      assert View() == SetCursor(f.(autocommit := true), w, None);
      if Trans() != None {
        TransactionCommit(true, w);
      }
    }

    method Rollback(ghost w: nat)
      requires IsMember(w)
      modifies this`cursorOpen, Root()`trans, Root()`autocommit
      ensures IsMember(w) && View() == EndTransaction(old(View()), w)
    {
      hide Snapshot, Flat;
      ghost var f := View();
      OwnEntry(w);
      AutocommitSet(true, w);
      if cursorOpen { FreeStmt(w); }
      assert View() == SetCursor(f.(autocommit := true), w, None);
      TransactionRollback(w);
    }

    // ---------- Clones ----------

    method FindRoot() returns (p: Connection)
      requires Valid()
      ensures p == Root()
    {
      p := this;
      while p.parent != null
        invariant p == this || p == Root()
        decreases if p.parent != null then 1 else 0
      {
        p := p.parent;
      }
    }

    /** A new connection becomes the last clone of this parent. */
    method Link(c: Connection)
      requires Flat() && c !in Members() && c.clones == [] && c.Self() == Member(None, None)
      modifies this`clones, c`parent
      ensures Flat() && clones == old(clones) + [c] && c.parent == this
      ensures View() == AddClone(old(View()))
    {
      hide Snapshot;
      ghost var members := Members();
      clones := clones + [c];
      c.parent := this;
      assert Members() == members + [c];
      SnapshotOfMore(members, c);
    }

    method Clone() returns (c: Connection)
      requires Valid()
      modifies Root()`clones
      ensures fresh(c) && Valid() && Members() == old(Members()) + [c]
      ensures View() == AddClone(old(View()))
    {
      hide Snapshot, Flat;
      var p := FindRoot();
      ghost var members := Members();
      c := new Connection();
      CloneIsNew(c, p);
      p.Link(c);
      assert Members() == members + [c];
    }

    lemma CloneIsNew(c: Connection, p: Connection)
      requires Valid() && c.parent == null && c != p == Root()
      ensures c !in p.Members() && p.Flat()
    {
    }

    /** Shifting the clones after this one down over it, in place. */
    method RemoveFromParent(ghost w: nat)
      requires IsMember(w) && parent != null
      modifies parent`clones
      ensures parent.Flat() && 0 < w <= old(|parent.clones|)
      ensures parent.clones == old(parent.clones)[..w - 1] + old(parent.clones)[w..]
    {
      var n := |parent.clones|;
      ghost var before := parent.clones;
      assert 0 < w <= n && before[w - 1] == this;
      var i := 0;
      while i < n
        invariant 0 <= i <= w - 1
      {
        if parent.clones[i] == this { break; }
        i := i + 1;
      }
      assert i == w - 1;
      i := i + 1;
      while i < n
        invariant w <= i <= n && |parent.clones| == n
        invariant forall k :: 0 <= k < w - 1 ==> parent.clones[k] == before[k]
        invariant forall k :: w - 1 <= k < i - 1 ==> parent.clones[k] == before[k + 1]
        invariant forall k :: i <= k < n ==> parent.clones[k] == before[k]
      {
        parent.clones := parent.clones[i - 1 := parent.clones[i]];
        i := i + 1;
      }
      parent.clones := parent.clones[..n - 1];
      assert parent.clones == before[..w - 1] + before[w..];
    }

    method LeaveFamily(ghost w: nat)
      requires IsMember(w) && parent != null
      modifies parent`clones
      ensures parent.Flat() && 0 < w <= old(|parent.clones|)
      ensures parent.clones == old(parent.clones)[..w - 1] + old(parent.clones)[w..]
      ensures parent.View() == CloseClone(old(View()), w)
    {
      hide Snapshot, Flat;
      ghost var members := Members();
      RemoveFromParent(w);
      assert parent.Members() == members[..w] + members[w + 1..];
      SnapshotWithout(members, w);
    }

    /** Closing a parent closes its clones first; closing a clone only takes it out of the family. */
    method Close(ghost w: nat)
      requires IsMember(w)
      modifies this`cursorOpen, clones`cursorOpen, Root()`clones, Root()`trans
      ensures parent == null ==> Valid() && clones == [] && trans == None && !cursorOpen
      ensures parent != null ==>
        && parent.Flat() && parent.View() == CloseClone(old(View()), w)
        && parent.clones == old(parent.clones)[..w - 1] + old(parent.clones)[w..]
      decreases if parent == null then 1 else 0, 1
    {
      hide Snapshot;
      if cursorOpen { FreeStmt(w); }
      CloseClones();
      if parent == null {
        trans := None;  // isc_rollback_transaction
      } else {
        LeaveFamily(w);
      }
    }

    method CloseClones()
      requires Valid()
      modifies clones`cursorOpen, Root()`trans, Root()`clones
      ensures clones == [] && Valid() && Root().clones == (if parent == null then [] else old(Root().clones))
      ensures parent != null ==> unchanged(this) && unchanged(parent)
      decreases if parent == null then 1 else 0, 0
    {
      ghost var before := clones;
      while |clones| != 0
        invariant Valid() && (parent != null ==> clones == [] && unchanged(this) && unchanged(parent))
        invariant forall c :: c in clones ==> c in before
        decreases |clones|
      {
        var c := clones[0];
        assert c in before && c.clones == [] && c.Root() == this;
        assert Members()[1] == c && c.Members() == Members();
        c.Close(1);
      }
    }

    static lemma SnapshotWithout(members: seq<Connection>, w: nat)
      requires w < |members|
      ensures Snapshot(members[..w] + members[w + 1..]) == Snapshot(members)[..w] + Snapshot(members)[w + 1..]
    {
      hide Snapshot;
      var rest, all := members[..w] + members[w + 1..], Snapshot(members);
      var a, b := Snapshot(rest), all[..w] + all[w + 1..];
      forall k | 0 <= k < |rest| ensures a[k] == b[k] {
        var m := if k < w then k else k + 1;
        assert rest[k] == members[m] && b[k] == all[m];
      }
    }

    static lemma SnapshotOfMore(members: seq<Connection>, c: Connection)
      ensures Snapshot(members + [c]) == Snapshot(members) + [c.Self()]
    {
      hide Snapshot;
    }
  }

  lemma CloseTwice(f: Family, w: nat)
    requires w < |f.members|
    ensures SetCursor(SetCursor(f, w, None), w, None) == SetCursor(f, w, None)
    ensures Autocommit(SetCursor(f, w, None), w) == Autocommit(f, w)
    ensures Autocommit(f, w).trans.Some? <==> f.autocommit || f.trans.Some?
    ensures !f.autocommit ==> Autocommit(f, w) == SetCursor(f, w, None)
    ensures Autocommit(f, w).members == f.members[w := f.members[w].(cursor := None)]
  {
  }

  lemma ReopenAndClose(f: Family, w: nat, cursor: Option<nat>)
    requires w < |f.members| && f.members[w].cursor == None
    ensures SetCursor(SetCursor(f, w, cursor), w, None) == f
  {
  }
}
