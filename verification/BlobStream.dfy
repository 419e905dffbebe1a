/**
 Blob streaming in firebird/generic/firebird.c: a writer that buffers up to a full
 segment, and readers that skip and get across segments.  A server blob is the list of
 its segments; reading consumes the list of the pieces that are left.
 */
module BlobStream {
  import opened Common

  const SEGM_SIZE: nat := 8192

  // ---------- Blobs as lists of segments ----------

  function Bytes(segments: seq<seq<Byte>>): seq<Byte> {
    if segments == [] then [] else segments[0] + Bytes(segments[1..])
  }

  /** Data cut into full segments and a last one with the rest. */
  function Chunks(data: seq<Byte>): seq<seq<Byte>> {
    if data == [] then []
    else if |data| <= SEGM_SIZE then [data]
    else [data[..SEGM_SIZE]] + Chunks(data[SEGM_SIZE..])
  }

  /** Pieces that one isc_get_segment call with a full-size buffer reads entirely. */
  predicate Readable(pieces: seq<seq<Byte>>) {
    forall i :: 0 <= i < |pieces| ==> 0 < |pieces[i]| <= SEGM_SIZE
  }

  /** size bytes cannot be read: more than a full buffer of them are wanted from a piece longer than the buffer. */
  predicate Stuck(pieces: seq<seq<Byte>>, size: int)
    decreases |pieces|
  {
    && pieces != [] && size > 0
    && ((|pieces[0]| > SEGM_SIZE && size > SEGM_SIZE) || Stuck(pieces[1..], size - |pieces[0]|))
  }

  /** In terms of the offset at which the long piece begins. */
  lemma {:induction false} StuckExactly(pieces: seq<seq<Byte>>, size: int)
    ensures Stuck(pieces, size) <==>
      exists k :: 0 <= k < |pieces| && |pieces[k]| > 8192 && size - |Bytes(pieces[..k])| > 8192
    decreases |pieces|
  {
    if pieces != [] {
      var p, rest := pieces[0], pieces[1..];
      StuckExactly(rest, size - |p|);
      forall k | 0 <= k < |rest| ensures |Bytes(pieces[..k + 1])| == |p| + |Bytes(rest[..k])| {
        assert pieces[..k + 1][1..] == rest[..k];
      }
      if k :| 0 <= k < |rest| && |rest[k]| > SEGM_SIZE && size - |p| - |Bytes(rest[..k])| > SEGM_SIZE {
        assert |pieces[k + 1]| > SEGM_SIZE && size - |Bytes(pieces[..k + 1])| > SEGM_SIZE;
      }
      if |p| > SEGM_SIZE && size > SEGM_SIZE {
        assert |pieces[0]| > SEGM_SIZE && size - |Bytes(pieces[..0])| > SEGM_SIZE;
      }
      if k :| 0 <= k < |pieces| && |pieces[k]| > SEGM_SIZE && size - |Bytes(pieces[..k])| > SEGM_SIZE {
        if k > 0 {
          assert |rest[k - 1]| > SEGM_SIZE && size - |p| - |Bytes(rest[..k - 1])| > SEGM_SIZE;
        }
      }
    }
  }

  lemma {:induction false} ReadableNeverStuck(pieces: seq<seq<Byte>>, size: int)
    requires Readable(pieces)
    ensures !Stuck(pieces, size)
    decreases |pieces|
  {
    if pieces != [] {
      ReadableNeverStuck(pieces[1..], size - |pieces[0]|);
    }
  }

  predicate NonEmpty(pieces: seq<seq<Byte>>) {
    forall i :: 0 <= i < |pieces| ==> pieces[i] != []
  }

  lemma {:induction false} ChunksCutEvenly(data: seq<Byte>)
    ensures var c := Chunks(data);
      && Bytes(c) == data && Readable(c)
      && (forall i :: 0 <= i < |c| - 1 ==> |c[i]| == 8192)
      && (forall i :: 0 <= i < |c| ==> 0 < |c[i]| <= 8192)
  {
    if data != [] {
      if |data| <= SEGM_SIZE {
        assert Bytes([data]) == data + Bytes([data][1..]);
      } else {
        ChunksCutEvenly(data[SEGM_SIZE..]);
        assert data == data[..SEGM_SIZE] + data[SEGM_SIZE..];
      }
    }
  }

  lemma FirstChunk(data: seq<Byte>, n: nat)
    requires data != [] && n == if |data| < SEGM_SIZE then |data| else SEGM_SIZE
    ensures Chunks(data) == [data[..n]] + Chunks(data[n..])
  {
    if |data| == n {
      assert data[..n] == data && data[n..] == [];
    }
  }

  /** n full segments and then the rest. */
  lemma {:induction false} ChunksAfter(full: seq<Byte>, rest: seq<Byte>, n: nat)
    requires |full| == n * SEGM_SIZE
    ensures Chunks(full + rest) == Chunks(full) + Chunks(rest)
    decreases n
  {
    if n == 0 {
      assert full + rest == rest;
    } else {
      ChunksAfter(full[SEGM_SIZE..], rest, n - 1);
      assert full[..SEGM_SIZE] == (full + rest)[..SEGM_SIZE];
      assert full[SEGM_SIZE..] + rest == (full + rest)[SEGM_SIZE..];
      if |full| == SEGM_SIZE {
        assert full[SEGM_SIZE..] == [] && full[..SEGM_SIZE] == full;
        if rest == [] {
          assert full + rest == full;
        }
      }
    }
  }

  // ---------- Writing ----------

  class BlobWriter {
    var isOpen: bool
    var segments: seq<seq<Byte>>  // what isc_put_segment has stored
    const buffer: array<Byte>
    var bufferFree: nat

    constructor ()
      ensures Valid() && !isOpen && fresh(buffer)
    {
      isOpen := false;
      segments := [];
      buffer := new Byte[SEGM_SIZE];
      bufferFree := SEGM_SIZE;
    }

    /** There is always room in the buffer. */
    ghost predicate Valid()
      reads this
    {
      buffer.Length == SEGM_SIZE && 0 < bufferFree <= SEGM_SIZE
    }

    /** The segments are full and hold, with the bytes in the buffer, all that was put. */
    ghost predicate Holds(all: seq<Byte>)
      reads this, buffer
    {
      && Valid()
      && exists flushed: seq<Byte> ::
           && |flushed| == |segments| * SEGM_SIZE && segments == Chunks(flushed)
           && all == flushed + buffer[..SEGM_SIZE - bufferFree]
    }

    /** Blobs are only written within an explicit transaction. */
    method Create(autocommit: bool) returns (ok: bool)
      requires Valid()
      modifies this
      ensures Valid() && ok == (!autocommit && !old(isOpen))
      ensures if ok then isOpen && Holds([]) else unchanged(this)
    {
      if autocommit || isOpen { return false; }
      isOpen := true;
      segments := [];
      bufferFree := SEGM_SIZE;
      ok := true;
      assert Chunks([]) == [] && [] == [] + buffer[..0];
    }

    /** Copying into the buffer at its first free byte. */
    method Fill(at: nat, part: seq<Byte>)
      requires buffer.Length == SEGM_SIZE && at + |part| <= SEGM_SIZE
      modifies buffer
      ensures buffer[..at + |part|] == old(buffer[..at]) + part
    {
      forall k | 0 <= k < |part| {
        buffer[at + k] := part[k];
      }
    }

    lemma FlushFull(flushed: seq<Byte>, full: seq<Byte>, n: nat)
      requires |flushed| == n * SEGM_SIZE && |full| == SEGM_SIZE
      ensures |flushed + full| == (n + 1) * SEGM_SIZE
      ensures Chunks(flushed + full) == Chunks(flushed) + [full]
    {
      ChunksAfter(flushed, full, n);
    }

    lemma Regroup(flushed: seq<Byte>, held: seq<Byte>, rest: seq<Byte>, n: nat)
      requires n <= |rest|
      ensures flushed + held + rest == flushed + (held + rest[..n]) + rest[n..]
    {
    }

    /** Without a created blob, data that leave room in the buffer are accepted all the same. */
    method Put(data: seq<Byte>, autocommit: bool, ghost all: seq<Byte>) returns (ok: bool)
      requires Valid() && (isOpen ==> Holds(all))
      modifies this, buffer
      ensures Valid() && isOpen == old(isOpen)
      ensures ok == (!autocommit && (old(isOpen) || |data| < old(bufferFree)))
      ensures isOpen ==> Holds(if ok then all + data else all)
      ensures !isOpen ==> segments == old(segments) && bufferFree == old(bufferFree) - if ok then |data| else 0
    {
      if autocommit {
        return false;
      }
      if isOpen {
        PutOpen(data, all);
        return true;
      } else {
        ok := PutClosed(data);
      }
    }

    /** The same loop when the first flush fails. */
    method PutClosed(data: seq<Byte>) returns (ok: bool)
      requires Valid() && !isOpen
      modifies this`bufferFree, buffer
      ensures Valid() && ok == (|data| < old(bufferFree))
      ensures bufferFree == old(bufferFree) - if ok then |data| else 0
    {
      var free := bufferFree;
      var rest := data;
      while |rest| > 0
        invariant buffer.Length == SEGM_SIZE && 0 < free <= SEGM_SIZE && bufferFree == old(bufferFree)
        invariant bufferFree - free == |data| - |rest|
        decreases |rest|
      {
        var n := if |rest| > free then free else |rest|;
        Fill(SEGM_SIZE - free, rest[..n]);
        rest := rest[n..];
        free := free - n;
        if free == 0 {
          return false;  // isc_put_segment without a blob handle
        }
      }
      bufferFree := free;
      ok := true;
    }

    method PutOpen(data: seq<Byte>, ghost all: seq<Byte>)
      requires isOpen && Holds(all)
      modifies this, buffer
      ensures isOpen && Holds(all + data)
    {
      hide Chunks;
      var free := bufferFree;
      var rest := data;
      ghost var flushed :| |flushed| == |segments| * SEGM_SIZE && segments == Chunks(flushed)
        && all == flushed + buffer[..SEGM_SIZE - bufferFree];
      assert all + rest == flushed + buffer[..SEGM_SIZE - free] + rest;
      while |rest| > 0
        invariant isOpen && buffer.Length == SEGM_SIZE && 0 < free <= SEGM_SIZE
        invariant |flushed| == |segments| * SEGM_SIZE && segments == Chunks(flushed)
        invariant all + data == flushed + buffer[..SEGM_SIZE - free] + rest
        decreases |rest|
      {
        ghost var held := buffer[..SEGM_SIZE - free];
        var n := if |rest| > free then free else |rest|;
        Fill(SEGM_SIZE - free, rest[..n]);
        Regroup(flushed, held, rest, n);
        rest := rest[n..];
        free := free - n;
        if free == 0 {
          FlushFull(flushed, buffer[..], |segments|);
          assert buffer[..SEGM_SIZE] == buffer[..] && buffer[..0] == [];
          flushed := flushed + buffer[..];
          segments := segments + [buffer[..]];  // isc_put_segment
          free := SEGM_SIZE;
        }
      }
      bufferFree := free;
    }

    /** The stored blob is cut into segments just like data written in one go. */
    method Close(autocommit: bool, ghost all: seq<Byte>) returns (ok: bool, blob: seq<seq<Byte>>)
      requires Valid() && (isOpen ==> Holds(all))
      modifies this
      ensures Valid() && ok == (!autocommit && old(isOpen))
      ensures if ok then !isOpen && blob == segments == Chunks(all) else unchanged(this)
    {
      if autocommit || !isOpen {
        return false, [];
      }
      ghost var flushed :| |flushed| == |segments| * SEGM_SIZE && segments == Chunks(flushed)
        && all == flushed + buffer[..SEGM_SIZE - bufferFree];
      ghost var held := buffer[..SEGM_SIZE - bufferFree];
      ChunksAfter(flushed, held, |segments|);
      if bufferFree != SEGM_SIZE {
        segments := segments + [buffer[..SEGM_SIZE - bufferFree]];
      }
      isOpen := false;
      return true, segments;
    }
  }

  /** Storing a blob parameter: one segment after the other. */
  method BlobCreate(data: seq<Byte>) returns (blob: seq<seq<Byte>>)
    ensures blob == Chunks(data)
  {
    hide Chunks;
    NoChunks();
    var seglen := |data|;
    if seglen > SEGM_SIZE { seglen := SEGM_SIZE; }
    var pos := 0;
    blob := [];
    assert data[0..] == data;
    while pos < |data|
      invariant 0 <= pos <= |data| && seglen <= SEGM_SIZE && (pos < |data| ==> seglen == SEGM_SIZE || seglen == |data|)
      invariant blob + Chunks(data[pos..]) == Chunks(data)
      decreases |data| - pos
    {
      if pos + seglen > |data| { seglen := |data| - pos; }
      ghost var rest := data[pos..];
      assert rest[..seglen] == data[pos..pos + seglen] && rest[seglen..] == data[pos + seglen..];
      FirstChunk(rest, seglen);
      assert blob + ([rest[..seglen]] + Chunks(rest[seglen..])) == blob + [rest[..seglen]] + Chunks(rest[seglen..]);
      blob := blob + [data[pos..pos + seglen]];
      pos := pos + seglen;
    }
    assert data[pos..] == [] && blob + [] == blob;
  }

  lemma NoChunks()
    ensures Chunks([]) == []
  {
  }

  // ---------- Reading ----------

  datatype Status = Complete | Partial | EndOfBlob

  class BlobReader {
    var pieces: seq<seq<Byte>>  // what is left to be read

    constructor (blob: seq<seq<Byte>>)
      ensures pieces == blob
    {
      pieces := blob;
    }

    /** isc_get_segment: from the first piece only, Partial if some of it is left. */
    method GetSegment(asked: nat) returns (status: Status, data: seq<Byte>)
      requires NonEmpty(pieces)
      modifies this
      ensures NonEmpty(pieces)
      ensures old(pieces) == [] ==> status == EndOfBlob && data == [] && pieces == []
      ensures old(pieces) != [] ==>
        var p := old(pieces)[0];
        if |p| <= asked then status == Complete && data == p && pieces == old(pieces)[1..]
        else status == Partial && data == p[..asked] && pieces == [p[asked..]] + old(pieces)[1..]
    {
      if pieces == [] {
        return EndOfBlob, [];
      }
      var p := pieces[0];
      if |p| <= asked {
        pieces := pieces[1..];
        return Complete, p;
      } else {
        pieces := [p[asked..]] + pieces[1..];
        return Partial, p[..asked];
      }
    }

    lemma TakePiece(n: nat)
      requires NonEmpty(pieces)
      ensures pieces == [] <==> Bytes(pieces) == []
      ensures pieces != [] && n <= |pieces[0]| ==>
        Bytes(pieces) == pieces[0][..n] + Bytes([pieces[0][n..]] + pieces[1..])
      ensures pieces != [] ==> Bytes(pieces) == pieces[0] + Bytes(pieces[1..])
    {
      if pieces != [] && n <= |pieces[0]| {
        var rest := [pieces[0][n..]] + pieces[1..];
        assert rest[1..] == pieces[1..];
        assert pieces[0] == pieces[0][..n] + pieces[0][n..];
      }
    }

    lemma ReadableNow()
      ensures pieces == [] ==> Readable(pieces) && Bytes(pieces) == []
      ensures Readable(pieces) ==> NonEmpty(pieces)
      ensures pieces == [] ==> forall size: int :: !Stuck(pieces, size)
    {
    }

    /** One read for a request of size bytes, or of all that is left if size is not positive. */
    method NextChunk(asked: nat, ghost size: int) returns (status: Status, data: seq<Byte>)
      requires NonEmpty(pieces) && asked == if 0 <= size < SEGM_SIZE then size else SEGM_SIZE
      modifies this
      ensures NonEmpty(pieces) && old(Bytes(pieces)) == data + Bytes(pieces) && |data| <= asked
      ensures status == EndOfBlob ==> data == [] && pieces == []
      ensures data == [] && asked > 0 ==> status == EndOfBlob
      ensures status == Complete ==> (Readable(pieces) <==> Readable(old(pieces)))
      ensures status == Partial ==>
        |data| == asked && (Readable(old(pieces)) ==> Readable(pieces) && asked < SEGM_SIZE)
      ensures status == EndOfBlob ==> pieces == old(pieces)
      ensures status == Complete && size > |data| ==> (Stuck(old(pieces), size) <==> Stuck(pieces, size - |data|))
      ensures status == Partial && size > |data| ==> Stuck(old(pieces), size)
      ensures status == EndOfBlob || size <= |data| ==> !Stuck(old(pieces), size)
    {
      TakePiece(asked);
      ReadablePieces(asked);
      status, data := GetSegment(asked);
    }

    /** Skips size bytes, or to the end; an error exactly when a long segment is in the way. */
    method Skip(size0: nat) returns (ok: bool)
      requires NonEmpty(pieces)
      modifies this
      ensures NonEmpty(pieces) && (ok <==> !Stuck(old(pieces), size0))
      ensures ok ==> Bytes(pieces) == Dropped(old(Bytes(pieces)), size0)
      ensures Readable(old(pieces)) ==> Readable(pieces)
    {
      hide Bytes, Readable, NonEmpty, Stuck, Taken, Dropped;
      ghost var blob := pieces;
      ReadableNow();
      ghost var all, done: seq<Byte> := Bytes(pieces), [];
      var size := size0;
      var actual, asked := SEGM_SIZE, 0;
      while actual != 0
        invariant NonEmpty(pieces) && all == done + Bytes(pieces) && size == size0 - |done|
        invariant Readable(blob) ==> Readable(pieces)
        invariant Stuck(blob, size0) <==> Stuck(pieces, size)
        invariant 0 <= size && (size == 0 ==> size0 == 0) && (actual == 0 ==> pieces == [])
        decreases |Bytes(pieces)|, actual
      {
        if size < SEGM_SIZE {
          asked := size;
        } else {
          asked := SEGM_SIZE;
        }
        var status, data := NextChunk(asked, size);
        Regrouped(done, data, Bytes(pieces));
        done := done + data;
        actual := |data|;
        size := size - actual;
        if size == 0 { break; }
        if status == EndOfBlob { break; }
        if status != Complete { return false; }
      }
      ReadableNow();
      SplitAfter(done, Bytes(pieces), size0);
      ok := true;
    }

    /** Gets size bytes, or to the end; a size that is not positive, the default being -1, gets all that is left. */
    method Get(size0: int) returns (ok: bool, result: seq<Byte>)
      requires NonEmpty(pieces)
      modifies this
      ensures NonEmpty(pieces)
      ensures ok <==> if size0 > 0 then !Stuck(old(pieces), size0) else Readable(old(pieces))
      ensures ok ==>
        && result == (if size0 > 0 then Taken(old(Bytes(pieces)), size0) else old(Bytes(pieces)))
        && Bytes(pieces) == if size0 > 0 then Dropped(old(Bytes(pieces)), size0) else []
    {
      hide Bytes, Readable, NonEmpty, Stuck, Taken, Dropped;
      ReadableNow();
      ghost var all, blob := Bytes(pieces), pieces;
      result := [];
      var size := size0;
      var actual, asked := SEGM_SIZE, 0;
      while actual != 0
        invariant NonEmpty(pieces) && all == result + Bytes(pieces) && size == size0 - |result|
        invariant if size0 > 0 then size > 0 else size <= 0
        invariant size0 <= 0 ==> (Readable(pieces) <==> Readable(blob))
        invariant size0 > 0 ==> (Stuck(pieces, size) <==> Stuck(blob, size0))
        invariant actual == 0 ==> pieces == []
        decreases |Bytes(pieces)|, actual
      {
        if size > 0 && size < SEGM_SIZE {
          asked := size;
        } else {
          asked := SEGM_SIZE;
        }
        var status, data := NextChunk(asked, if size > 0 then size else -1);
        actual := |data|;
        Regrouped(result, data, Bytes(pieces));
        result := result + data;
        size := size - actual;
        if size == 0 { break; }
        if status == EndOfBlob { break; }
        if status != Complete { return false, result; }
      }
      ReadableNow();
      if size0 > 0 {
        SplitAfter(result, Bytes(pieces), size0);
      }
      ok := true;
    }

    lemma ReadablePieces(n: nat)
      requires NonEmpty(pieces)
      ensures pieces == [] ==> Readable(pieces)
      ensures pieces != [] ==> (Readable(pieces) <==> |pieces[0]| <= SEGM_SIZE && Readable(pieces[1..]))
      ensures pieces != [] && n < |pieces[0]| && Readable(pieces) ==> Readable([pieces[0][n..]] + pieces[1..])
    {
      if pieces != [] && |pieces[0]| <= SEGM_SIZE && Readable(pieces[1..]) {
        forall i | 0 <= i < |pieces| ensures 0 < |pieces[i]| <= SEGM_SIZE {
          if i > 0 { assert pieces[i] == pieces[1..][i - 1]; }
        }
      }
    }

    /** Reading a blob field in one go: an error exactly when some segment is longer than the buffer. */
    method BlobGet() returns (ok: bool, result: seq<Byte>)
      requires NonEmpty(pieces)
      modifies this
      ensures ok <==> Readable(old(pieces))
      ensures ok ==> result == old(Bytes(pieces))
    {
      ghost var all, blob := Bytes(pieces), pieces;
      result := [];
      var actual := SEGM_SIZE;
      while actual != 0
        invariant NonEmpty(pieces) && all == result + Bytes(pieces)
        invariant Readable(pieces) <==> Readable(blob)
        invariant actual == 0 ==> pieces == []
        decreases |Bytes(pieces)|, actual
      {
        var status, data := NextChunk(SEGM_SIZE, -1);
        actual := |data|;
        result := result + data;
        if status == EndOfBlob { break; }
        if status != Complete { return false, result; }
      }
      ok := true;
    }
  }

  function Dropped(s: seq<Byte>, n: nat): seq<Byte> {
    if n <= |s| then s[n..] else []
  }

  function Taken(s: seq<Byte>, n: nat): seq<Byte> {
    if n <= |s| then s[..n] else s
  }

  lemma {:induction false} BytesConcat(a: seq<seq<Byte>>, b: seq<seq<Byte>>)
    ensures Bytes(a + b) == Bytes(a) + Bytes(b)
    ensures forall piece :: Bytes([piece]) == piece
  {
    forall piece: seq<Byte> ensures Bytes([piece]) == piece {
      assert [piece][1..] == [] && piece + Bytes([]) == piece;
    }
    if a == [] {
      assert a + b == b;
    } else {
      assert (a + b)[1..] == a[1..] + b;
      BytesConcat(a[1..], b);
    }
  }

  /** What is done when n bytes are, or all. */
  lemma SplitAfter(done: seq<Byte>, rest: seq<Byte>, n: nat)
    requires |done| == n || (|done| < n && rest == [])
    ensures done == Taken(done + rest, n) && rest == Dropped(done + rest, n)
  {
  }

  function Concat(parts: seq<seq<Byte>>): seq<Byte> {
    if parts == [] then [] else Concat(parts[..|parts| - 1]) + parts[|parts| - 1]
  }

  lemma SliceByIndex(all: seq<Byte>, n: nat, m: nat)
    ensures var data := Taken(Dropped(all, n), m);
      && |data| == (if |all| <= n then 0 else if |all| <= n + m then |all| - n else m)
      && forall i :: 0 <= i < |data| ==> data[i] == all[n + i]
  {
  }

  /** newblob create, put ..., close; then blob open, skip n, get m. */
  method StreamThrough(parts: seq<seq<Byte>>, n: nat, m: nat) returns (data: seq<Byte>)
    requires 1 <= m
    ensures data == Taken(Dropped(Concat(parts), n), m)
    ensures var all := Concat(parts);
      && |data| == (if |all| <= n then 0 else if |all| <= n + m then |all| - n else m)
      && forall i :: 0 <= i < |data| ==> data[i] == all[n + i]
  {
    hide Bytes, Chunks, Stuck, Taken, Dropped;
    SliceByIndex(Concat(parts), n, m);
    var writer := new BlobWriter();
    var ok := writer.Create(false);
    for i := 0 to |parts|
      invariant fresh(writer) && fresh(writer.buffer) && writer.isOpen && writer.Holds(Concat(parts[..i]))
    {
      assert parts[..i + 1][..i] == parts[..i];
      ok := writer.Put(parts[i], false, Concat(parts[..i]));
    }
    assert parts[..|parts|] == parts;
    var blob;
    ok, blob := writer.Close(false, Concat(parts));
    ChunksCutEvenly(Concat(parts));
    var reader := new BlobReader(blob);
    ReadableNeverStuck(blob, n);
    ok := reader.Skip(n);
    ReadableNeverStuck(reader.pieces, m);
    ok, data := reader.Get(m);
  }
}
