/**
 The incremental blob channels of sqlite3/generic/dbi_sqlite_incrblob.c: the doubly
 linked list of the open channels of a connection, and positioned reads and writes.
 */
module IncrblobChannels {
  import opened Common

  datatype Whence = SeekSet | SeekCur | SeekEnd

  function Without<T(==)>(s: seq<T>, x: T): seq<T> {
    if s == [] then [] else if s[0] == x then s[1..] else [s[0]] + Without(s[1..], x)
  }

  lemma {:induction false} WithoutAt<T>(s: seq<T>, k: nat)
    requires k < |s| && forall i :: 0 <= i < k ==> s[i] != s[k]
    ensures Without(s, s[k]) == s[..k] + s[k + 1..]
  {
    if k > 0 {
      WithoutAt(s[1..], k - 1);
      assert s[..k] == [s[0]] + s[1..][..k - 1] && s[1..][k..] == s[k + 1..];
    }
  }

  /** data written into content at an offset. */
  function Overlay(content: seq<Byte>, at: nat, data: seq<Byte>): seq<Byte>
    requires at + |data| <= |content|
  {
    content[..at] + data + content[at + |data|..]
  }

  class Channel {
    var pNext: Channel?
    var pPrev: Channel?
    const blob: array<Byte>  // the value in the database; its size cannot change
    var iSeek: int

    constructor (blob: array<Byte>)
      ensures this.blob == blob && iSeek == 0 && pNext == null && pPrev == null
    {
      this.blob := blob;
      iSeek := 0;
      pNext := null;
      pPrev := null;
    }

    /** -1 is an error: sqlite3_blob_read refuses a negative offset. */
    method Input(bufSize: nat) returns (r: int, data: seq<Byte>)
      modifies this`iSeek
      ensures old(iSeek) >= 0 ==>
        var end := if old(iSeek) + bufSize < blob.Length then old(iSeek) + bufSize else blob.Length;
        && data == (if old(iSeek) < end then blob[old(iSeek)..end] else [])
        && r == |data| && iSeek == old(iSeek) + |data|
      ensures old(iSeek) < 0 ==> r == (if bufSize == 0 then 0 else -1) && iSeek == old(iSeek)
    {
      var nRead: int := bufSize;
      var nBlob := blob.Length;
      data := [];
      if iSeek + nRead > nBlob {
        nRead := nBlob - iSeek;
      }
      if nRead <= 0 {
        return 0, data;
      }
      if iSeek < 0 {
        return -1, data;
      }
      data := blob[iSeek..iSeek + nRead];
      iSeek := iSeek + nRead;
      r := nRead;
    }

    /** All of the data or nothing is written. */
    method Output(data: seq<Byte>) returns (r: int)
      modifies this`iSeek, blob
      ensures 0 <= old(iSeek) && old(iSeek) + |data| <= blob.Length ==>
        && r == |data| && iSeek == old(iSeek) + |data|
        && blob[..] == Overlay(old(blob[..]), old(iSeek), data)
        && (forall k :: 0 <= k < blob.Length ==>
             blob[k] == if old(iSeek) <= k < old(iSeek) + |data| then data[k - old(iSeek)] else old(blob[k]))
      ensures !(0 <= old(iSeek) && old(iSeek) + |data| <= blob.Length) ==>
        && r == (if data == [] && old(iSeek) < 0 then 0 else -1)
        && iSeek == old(iSeek) && blob[..] == old(blob[..])
    {
      var nWrite := |data|;
      var nBlob := blob.Length;
      if iSeek + nWrite > nBlob {
        return -1;
      }
      if nWrite <= 0 {
        return 0;
      }
      if iSeek < 0 {
        return -1;
      }
      forall k | 0 <= k < nWrite {
        blob[iSeek + k] := data[k];
      }
      iSeek := iSeek + nWrite;
      r := nWrite;
    }

    method Seek(offset: int, mode: Whence) returns (position: int)
      modifies this`iSeek
      ensures position == iSeek
      ensures iSeek - offset == match mode case SeekSet => 0 case SeekCur => old(iSeek) case SeekEnd => blob.Length
    {
      match mode {
        case SeekSet => iSeek := offset;
        case SeekCur => iSeek := iSeek + offset;
        case SeekEnd => iSeek := blob.Length + offset;
      }
      position := iSeek;
    }

    /** Data written at a position that leaves room for it is what is read there. */
    method WriteSeekRead(at: nat, data: seq<Byte>) returns (back: seq<Byte>)
      requires at + |data| <= blob.Length
      modifies this`iSeek, blob
      ensures back == data && blob[..] == Overlay(old(blob[..]), at, data)
      ensures forall k :: 0 <= k < blob.Length ==>
        blob[k] == if at <= k < at + |data| then data[k - at] else old(blob[k])
    {
      var r := Seek(at, SeekSet);
      r := Output(data);
      r := Seek(-|data|, SeekCur);
      r, back := Input(|data|);
      assert blob[at..at + |data|] == blob[..][at..at + |data|];
    }
  }

  class Database {
    var pIncrblob: Channel?
    ghost var channels: seq<Channel>  // the open channels, the newest first

    constructor ()
      ensures Valid() && channels == []
    {
      pIncrblob := null;
      channels := [];
    }

    static ghost function ChannelAt(s: seq<Channel>, k: int): Channel? {
      if 0 <= k < |s| then s[k] else null
    }

    /** The list from pIncrblob on is exactly s, linked both ways and without a cycle. */
    ghost predicate Linked(s: seq<Channel>)
      reads this`pIncrblob, s`pNext, s`pPrev
    {
      && pIncrblob == ChannelAt(s, 0)
      && (forall k {:trigger s[k].pNext} :: 0 <= k < |s| ==> s[k].pNext == ChannelAt(s, k + 1))
      && (forall k {:trigger s[k].pPrev} :: 0 <= k < |s| ==> s[k].pPrev == ChannelAt(s, k - 1))
      && (forall j, k :: 0 <= j < k < |s| ==> s[j] != s[k])
    }

    ghost predicate Valid()
      reads this, channels`pNext, channels`pPrev
    {
      Linked(channels)
    }

    /** blob is null if sqlite3_blob_open fails; then nothing changes and there is no channel. */
    method CreateChannel(blob: array?<Byte>) returns (p: Channel?)
      requires Valid()
      modifies this, channels`pPrev
      ensures Valid() && (p == null <==> blob == null)
      ensures p == null ==> unchanged(this) && unchanged(old(channels))
      ensures p != null ==> fresh(p) && p.blob == blob && p.iSeek == 0 && channels == [p] + old(channels)
    {
      if blob == null {
        return null;
      }
      var c := new Channel(blob);
      c.pNext := pIncrblob;
      c.pPrev := null;
      if c.pNext != null {
        c.pNext.pPrev := c;
      }
      pIncrblob := c;
      channels := [c] + channels;
      p := c;
    }

    method Unlink(p: Channel, ghost s: seq<Channel>, ghost k: nat)
      requires Linked(s) && k < |s| && s[k] == p
      modifies this`pIncrblob, s`pNext, s`pPrev
      ensures Linked(s[..k] + s[k + 1..]) && p.pNext == old(p.pNext)
    {
      if p.pNext != null {
        p.pNext.pPrev := p.pPrev;
      }
      assert k + 1 < |s| ==> s[k + 1].pPrev == ChannelAt(s, k - 1);
      assert forall j {:trigger s[j].pPrev} :: 0 <= j < |s| && j != k + 1 ==> s[j].pPrev == ChannelAt(s, j - 1);
      if p.pPrev != null {
        p.pPrev.pNext := p.pNext;
      }
      assert k > 0 ==> s[k - 1].pNext == ChannelAt(s, k + 1);
      assert forall j {:trigger s[j].pNext} :: 0 <= j < |s| && j != k - 1 ==> s[j].pNext == ChannelAt(s, j + 1);
      if pIncrblob == p {
        pIncrblob := p.pNext;
      }
      Relinked(s, k);
    }

    lemma Relinked(s: seq<Channel>, k: nat)
      requires k < |s| && forall i, j :: 0 <= i < j < |s| ==> s[i] != s[j]
      requires pIncrblob == ChannelAt(s, if k == 0 then 1 else 0)
      requires forall j {:trigger s[j].pNext} :: 0 <= j < |s| ==>
        s[j].pNext == ChannelAt(s, if j == k - 1 then k + 1 else j + 1)
      requires forall j {:trigger s[j].pPrev} :: 0 <= j < |s| ==>
        s[j].pPrev == ChannelAt(s, if j == k + 1 then k - 1 else j - 1)
      ensures Linked(s[..k] + s[k + 1..])
    {
      var t := s[..k] + s[k + 1..];
      forall j: int ensures ChannelAt(t, j) == if j < k then ChannelAt(s, j) else ChannelAt(s, j + 1) {
      }
      hide ChannelAt;
      forall j {:trigger t[j].pNext} | 0 <= j < |t| ensures t[j].pNext == ChannelAt(t, j + 1) {
        var m := if j < k then j else j + 1;
        assert t[j] == s[m] && s[m].pNext == ChannelAt(s, if m == k - 1 then k + 1 else m + 1);
      }
      forall j {:trigger t[j].pPrev} | 0 <= j < |t| ensures t[j].pPrev == ChannelAt(t, j - 1) {
        var m := if j < k then j else j + 1;
        assert t[j] == s[m] && s[m].pPrev == ChannelAt(s, if m == k + 1 then k - 1 else m - 1);
      }
      assert forall i, j :: 0 <= i < j < |t| ==> t[i] != t[j];
    }

    method CloseChannel(p: Channel)
      requires Valid() && p in channels
      modifies this, channels`pNext, channels`pPrev
      ensures Valid() && channels == Without(old(channels), p) && p !in channels
      ensures exists k :: 0 <= k < old(|channels|) && old(channels)[k] == p
                && channels == old(channels)[..k] + old(channels)[k + 1..]
      ensures p.pNext == old(p.pNext)
    {
      ghost var k :| 0 <= k < |channels| && channels[k] == p;
      WithoutAt(channels, k);
      Unlink(p, channels, k);
      channels := channels[..k] + channels[k + 1..];
    }

    /** One round of the loop in CloseChannels. */
    method CloseFirst(p: Channel)
      requires Valid() && p == pIncrblob
      modifies this, channels`pNext, channels`pPrev
      ensures Valid() && old(channels) != [] && channels == old(channels)[1..]
      ensures pIncrblob == old(p.pNext) && (pIncrblob == null <==> channels == [])
    {
      assert p == channels[0] && Without(channels, p) == channels[1..];
      CloseChannel(p);
    }

    method CloseChannels()
      requires Valid()
      modifies this, channels`pNext, channels`pPrev
      ensures Valid() && channels == [] && pIncrblob == null
    {
      ghost var all := channels;
      var p := pIncrblob;
      assert p == null <==> channels == [];
      hide Valid;
      while p != null
        invariant Valid() && p == pIncrblob && (p == null <==> channels == [])
        invariant |channels| <= |all| && channels == all[|all| - |channels|..]
        decreases |channels|
      {
        var pNext := p.pNext;
        CloseFirst(p);
        p := pNext;
      }
    }
  }
}
