/**
 The binary-to-text codec of sqlite/generic/encode.c.

 An encoding is an offset byte followed by the input bytes with that offset
 subtracted modulo 256; the results 0x00, 0x01 and 0x27 are written as two bytes.
 */
module BinaryCodec {
  import opened Common

  const QUOTE: Byte := 0x27
  const EMPTY_MARK: Byte := 0x78  // 'x'

  // ---------- What an encoding is ----------

  predicate IsOffset(e: int) {
    1 <= e < 256 && e != QUOTE
  }

  function Shifted(b: Byte, e: int): Byte {
    (b - e) % 256
  }

  function Unshifted(c: Byte, e: int): Byte {
    (c + e) % 256
  }

  predicate Special(c: Byte) {
    c == 0 || c == 1 || c == QUOTE
  }

  function Escape(c: Byte): (s: seq<Byte>)
    ensures |s| == if Special(c) then 2 else 1
  {
    if c == 0 then [1, 1] else if c == 1 then [1, 2] else if c == QUOTE then [1, 3] else [c]
  }

  /** The byte that the pair 1, k stands for. */
  function Unescape(k: Byte): Byte
    requires 1 <= k <= 3
  {
    if k == 1 then 0 else if k == 2 then 1 else QUOTE
  }

  /** The encoded bytes after the offset byte. */
  function Body(input: seq<Byte>, e: int): seq<Byte> {
    if input == [] then [] else Escape(Shifted(input[0], e)) + Body(input[1..], e)
  }

  /** How many input bytes need two output bytes under offset e. */
  function Escapes(input: seq<Byte>, e: int): nat {
    if input == [] then 0 else (if Special(Shifted(input[0], e)) then 1 else 0) + Escapes(input[1..], e)
  }

  /** e is the smallest of the allowed offsets with the fewest escapes. */
  ghost predicate BestOffset(input: seq<Byte>, e: int) {
    && IsOffset(e)
    && (forall k :: IsOffset(k) ==> Escapes(input, e) <= Escapes(input, k))
    && (forall k :: IsOffset(k) && k < e ==> Escapes(input, e) < Escapes(input, k))
  }

  ghost predicate IsEncoding(input: seq<Byte>, text: seq<Byte>) {
    if input == [] then text == [EMPTY_MARK]
    else text != [] && BestOffset(input, text[0]) && text == [text[0]] + Body(input, text[0])
  }

  /** The buffer size that callers of the encoder are told to provide. */
  function DocumentedSize(n: nat): nat {
    (256 * n + 1262) / 253
  }

  // ---------- What decoding means ----------

  /** The bytes the decoder writes, and whether it reached the end of the text. */
  datatype Decoding = Decoding(bytes: seq<Byte>, wellFormed: bool)

  function Decoded(text: seq<Byte>, e: Byte): Decoding {
    if text == [] then
      Decoding([], true)
    else if text[0] != 1 then
      var rest := Decoded(text[1..], e);
      Decoding([Unshifted(text[0], e)] + rest.bytes, rest.wellFormed)
    else if |text| == 1 || !(1 <= text[1] <= 3) then
      Decoding([], false)
    else
      var rest := Decoded(text[2..], e);
      Decoding([Unshifted(Unescape(text[1]), e)] + rest.bytes, rest.wellFormed)
  }

  /** The C string at the start of a buffer: everything before its first zero byte. */
  function CString(buffer: seq<Byte>): seq<Byte> {
    if buffer == [] || buffer[0] == 0 then [] else [buffer[0]] + CString(buffer[1..])
  }

  // ---------- Size of the encoding ----------

  lemma {:induction false} BodyLength(input: seq<Byte>, e: int)
    ensures |Body(input, e)| == |input| + Escapes(input, e)
  {
    if input != [] {
      BodyLength(input[1..], e);
    }
  }

  function Occurrences(input: seq<Byte>, c: int): nat {
    if input == [] then 0 else (if input[0] == c then 1 else 0) + Occurrences(input[1..], c)
  }

  lemma {:induction false} OccurrencesCounted(input: seq<Byte>, c: Byte)
    ensures Occurrences(input, c) == multiset(input)[c]
  {
    if input != [] {
      OccurrencesCounted(input[1..], c);
      assert input == [input[0]] + input[1..];
    }
  }

  /** The three histogram entries the encoder adds up are the number of escapes. */
  lemma {:induction false} EscapesFromHistogram(input: seq<Byte>, e: Byte)
    ensures Escapes(input, e)
         == Occurrences(input, e) + Occurrences(input, (e + 1) % 256) + Occurrences(input, (e + QUOTE) % 256)
  {
    if input != [] {
      var b := input[0];
      assert Special(Shifted(b, e)) <==> b == e || b == (e + 1) % 256 || b == (e + QUOTE) % 256;
      hide Shifted, Special;
      EscapesFromHistogram(input[1..], e);
    }
  }

  function OffsetsBelow(k: nat): nat {
    if k == 0 then 0 else OffsetsBelow(k - 1) + if IsOffset(k - 1) then 1 else 0
  }

  function EscapesOverOffsets(input: seq<Byte>, k: nat): nat {
    if k == 0 then 0
    else EscapesOverOffsets(input, k - 1) + if IsOffset(k - 1) then Escapes(input, k - 1) else 0
  }

  /** How many offsets below k make byte b special. */
  function OffsetsEscaping(b: Byte, k: nat): nat {
    if k == 0 then 0
    else OffsetsEscaping(b, k - 1) + if IsOffset(k - 1) && Special(Shifted(b, k - 1)) then 1 else 0
  }

  lemma SpecialOffsets(b: Byte, e: Byte)
    ensures Special(Shifted(b, e)) ==> e == b || e == (b - 1) % 256 || e == (b - QUOTE) % 256
  {
  }

  lemma {:induction false} AtMostThreeOffsetsEscape(b: Byte, k: nat)
    requires k <= 256
    ensures OffsetsEscaping(b, k)
         <= (if b < k then 1 else 0) + (if (b - 1) % 256 < k then 1 else 0) + (if (b - QUOTE) % 256 < k then 1 else 0)
  {
    if k != 0 {
      SpecialOffsets(b, k - 1);
      AtMostThreeOffsetsEscape(b, k - 1);
    }
  }

  lemma {:induction false} FirstByteOverOffsets(input: seq<Byte>, k: nat)
    requires input != []
    ensures EscapesOverOffsets(input, k) == OffsetsEscaping(input[0], k) + EscapesOverOffsets(input[1..], k)
  {
    if k != 0 {
      FirstByteOverOffsets(input, k - 1);
    }
  }

  lemma {:induction false} NoEscapesWithoutInput(k: nat)
    ensures EscapesOverOffsets([], k) == 0
  {
    if k != 0 {
      NoEscapesWithoutInput(k - 1);
    }
  }

  lemma {:induction false} EscapesOverOffsetsUpper(input: seq<Byte>)
    ensures EscapesOverOffsets(input, 256) <= 3 * |input|
  {
    if input == [] {
      NoEscapesWithoutInput(256);
    } else {
      EscapesOverOffsetsUpper(input[1..]);
      FirstByteOverOffsets(input, 256);
      AtMostThreeOffsetsEscape(input[0], 256);
    }
  }

  lemma OneMore(m: nat, x: nat)
    ensures m * (x + 1) == m * x + m
  {
  }

  lemma {:induction false} EscapesOverOffsetsLower(input: seq<Byte>, m: nat, k: nat)
    requires forall e :: IsOffset(e) ==> m <= Escapes(input, e)
    ensures m * OffsetsBelow(k) <= EscapesOverOffsets(input, k)
  {
    hide Escapes;
    if k != 0 {
      EscapesOverOffsetsLower(input, m, k - 1);
      OneMore(m, OffsetsBelow(k - 1));
    }
  }

  lemma {:induction false} OffsetCount(k: nat)
    requires k <= 256
    ensures OffsetsBelow(k) == if k == 0 then 0 else if k <= QUOTE then k - 1 else k - if k == QUOTE then 1 else 2
  {
    if k != 0 {
      OffsetCount(k - 1);
    }
  }

  /** Pigeonhole over the 254 offsets: the fewest escapes is at most 3n/254. */
  lemma Pigeonhole(input: seq<Byte>, m: nat)
    requires forall e :: IsOffset(e) ==> m <= Escapes(input, e)
    ensures 254 * m <= 3 * |input|
  {
    hide EscapesOverOffsets, OffsetsBelow, Escapes;
    OffsetCount(256);
    EscapesOverOffsetsLower(input, m, 256);
    EscapesOverOffsetsUpper(input);
  }

  /** Some allowed offset needs fewer escapes than there are bytes, so the search always picks one. */
  lemma OffsetChosen(input: seq<Byte>)
    requires input != []
    ensures exists e :: IsOffset(e) && Escapes(input, e) < |input|
  {
    if forall e :: IsOffset(e) ==> |input| <= Escapes(input, e) {
      Pigeonhole(input, |input|);
    }
  }

  /** An encoding and its terminator fit in the documented size; no other offset gives a shorter one. */
  lemma EncodingSize(input: seq<Byte>, text: seq<Byte>)
    requires IsEncoding(input, text)
    ensures |text| + 1 <= DocumentedSize(|input|) == (256 * |input| + 1262) / 253
    ensures input != [] ==> |text| == 1 + |input| + Escapes(input, text[0])
    ensures input != [] ==> forall e :: IsOffset(e) ==> |text| <= 1 + |Body(input, e)|
  {
    if input != [] {
      BodyLength(input, text[0]);
      Pigeonhole(input, Escapes(input, text[0]));
      forall e | IsOffset(e) ensures |text| <= 1 + |Body(input, e)| {
        BodyLength(input, e);
      }
    }
  }

  /**
   The first byte is the offset.  It is neither 0 nor a quote; of the other values none
   gives a shorter text, and no smaller one an equally short text.
   */
  lemma OffsetExactly(input: seq<Byte>, text: seq<Byte>)
    requires IsEncoding(input, text) && input != []
    ensures 1 <= text[0] && text[0] != 0x27 && text[1..] == Body(input, text[0])
    ensures forall e :: 1 <= e < 256 && e != 0x27 ==>
      |Body(input, text[0])| <= |Body(input, e)| && (e < text[0] ==> |Body(input, text[0])| < |Body(input, e)|)
  {
    hide Body, Escapes;
    BodyLength(input, text[0]);
    forall e | 1 <= e < 256 && e != 0x27
      ensures |Body(input, text[0])| <= |Body(input, e)| && (e < text[0] ==> |Body(input, text[0])| < |Body(input, e)|)
    {
      BodyLength(input, e);
      assert IsOffset(e);
    }
  }

  /** An empty input has a text of its own. */
  lemma EmptyEncoding(text: seq<Byte>)
    ensures IsEncoding([], text) <==> text == [0x78]
  {
  }

  lemma EncodingUnique(input: seq<Byte>, t: seq<Byte>, u: seq<Byte>)
    requires IsEncoding(input, t) && IsEncoding(input, u)
    ensures t == u
  {
  }

  // ---------- Round trip ----------

  lemma EscapeDecodes(c: Byte, rest: seq<Byte>, e: Byte)
    ensures var d := Decoded(rest, e);
      Decoded(Escape(c) + rest, e) == Decoding([Unshifted(c, e)] + d.bytes, d.wellFormed)
  {
    assert (Escape(c) + rest)[|Escape(c)|..] == rest;
  }

  lemma {:induction false} BodyDecodes(input: seq<Byte>, e: Byte)
    ensures Decoded(Body(input, e), e) == Decoding(input, true)
  {
    if input != [] {
      BodyDecodes(input[1..], e);
      var c := Shifted(input[0], e);
      var rest := Body(input[1..], e);
      EscapeDecodes(c, rest, e);
      assert Unshifted(c, e) == input[0];
      assert [input[0]] + input[1..] == input;
    }
  }

  lemma {:induction false} BodyIsQuotable(input: seq<Byte>, e: Byte)
    ensures 0 !in Body(input, e) && QUOTE !in Body(input, e)
  {
    if input != [] {
      BodyIsQuotable(input[1..], e);
    }
  }

  /** Decoding any encoding gives back the original bytes; the text can stand between single quotes. */
  lemma EncodingDecodes(input: seq<Byte>, text: seq<Byte>)
    requires IsEncoding(input, text)
    ensures text != [] && Decoded(text[1..], text[0]) == Decoding(input, true)
    ensures 0 !in text && 0x27 !in text
  {
    if input != [] {
      BodyDecodes(input, text[0]);
      BodyIsQuotable(input, text[0]);
      assert text[1..] == Body(input, text[0]);
    }
  }

  /** Conversely, a well-formed text without zero bytes and quotes is the only one that decodes to its bytes. */
  lemma {:induction false} DecodedEncodesBack(text: seq<Byte>, e: Byte)
    requires Decoded(text, e).wellFormed && 0 !in text && QUOTE !in text
    ensures Body(Decoded(text, e).bytes, e) == text
    decreases |text|
  {
    if text != [] {
      hide Decoded, Body, Unshifted, Escape;
      var n, c := FirstDecoded(text, e);
      DecodedEncodesBack(text[n..], e);
      BodyCons(c, Decoded(text[n..], e).bytes, e);
      CutAt(text, n);
    }
  }

  lemma FirstDecoded(text: seq<Byte>, e: Byte) returns (n: nat, c: Byte)
    requires text != [] && Decoded(text, e).wellFormed && 0 !in text && QUOTE !in text
    ensures 0 < n <= |text| && Escape(c) == text[..n]
    ensures Decoded(text[n..], e).wellFormed && 0 !in text[n..] && QUOTE !in text[n..]
    ensures Decoded(text, e).bytes == [Unshifted(c, e)] + Decoded(text[n..], e).bytes
  {
    if text[0] == 1 {
      n, c := 2, Unescape(text[1]);
    } else {
      n, c := 1, text[0];
    }
  }

  lemma BodyCons(c: Byte, bytes: seq<Byte>, e: Byte)
    ensures Body([Unshifted(c, e)] + bytes, e) == Escape(c) + Body(bytes, e)
  {
    assert Shifted(Unshifted(c, e), e) == c;
    assert ([Unshifted(c, e)] + bytes)[1..] == bytes;
  }

  lemma {:induction false} CStringOfTerminated(text: seq<Byte>, rest: seq<Byte>)
    requires 0 !in text
    ensures CString(text + [0] + rest) == text
  {
    if text != [] {
      CStringOfTerminated(text[1..], rest);
      assert (text + [0] + rest)[1..] == text[1..] + [0] + rest;
    }
  }

  // ---------- The format, byte by byte ----------

  lemma BodyOfOne(b: Byte, e: Byte)
    ensures Body([b], e) == Escape(Shifted(b, e))
  {
    EmptyBody(e);
    assert [b][1..] == [];
  }

  /** A byte that is c above the offset is written as c, or as a pair if c is 0, 1 or 0x27. */
  lemma CodeOfByte(b: Byte, c: Byte, e: Byte)
    requires b == (c + e) % 256
    ensures Body([b], e) == if c == 0 then [1, 1] else if c == 1 then [1, 2] else if c == 0x27 then [1, 3] else [c]
  {
    hide Body;
    BodyOfOne(b, e);
    assert Shifted(b, e) == c;
  }

  lemma {:induction false} BodyConcat(a: seq<Byte>, b: seq<Byte>, e: Byte)
    ensures Body(a + b, e) == Body(a, e) + Body(b, e)
  {
    if a == [] {
      assert a + b == b;
    } else {
      assert (a + b)[1..] == a[1..] + b;
      BodyConcat(a[1..], b, e);
    }
  }

  /** Outside pairs, byte c stands for the byte that is c above the offset. */
  lemma DecodesSingle(c: Byte, rest: seq<Byte>, e: Byte)
    requires c != 1
    ensures Decoded([c] + rest, e) == Decoding([(c + e) % 256] + Decoded(rest, e).bytes, Decoded(rest, e).wellFormed)
  {
    assert ([c] + rest)[1..] == rest;
  }

  /** The pairs 1 1, 1 2 and 1 3 stand for 0, 1 and 0x27 above the offset; with any other second byte decoding ends. */
  lemma DecodesPair(k: Byte, rest: seq<Byte>, e: Byte)
    ensures var c := if k == 1 then 0 else if k == 2 then 1 else 0x27;
      Decoded([1, k] + rest, e)
        == if k == 0 || k > 3 then Decoding([], false)
           else Decoding([(c + e) % 256] + Decoded(rest, e).bytes, Decoded(rest, e).wellFormed)
  {
    assert ([1, k] + rest)[2..] == rest;
  }

  lemma DecodingEnds(e: Byte)
    ensures Decoded([], e) == Decoding([], true) && Decoded([1], e) == Decoding([], false)
  {
  }

  // ---------- The encoder ----------

  method CountBytes(input: array<Byte>, n: int) returns (cnt: array<int>)
    requires 0 <= n <= input.Length
    ensures fresh(cnt) && cnt.Length == 256
    ensures forall c: Byte :: cnt[c] == Occurrences(input[..n], c) == multiset(input[..n])[c]
  {
    cnt := new int[256](_ => 0);
    var i := n - 1;
    while i >= 0
      invariant -1 <= i < n
      invariant forall c: Byte :: cnt[c] == Occurrences(input[i + 1..n], c)
    {
      assert input[i..n][1..] == input[i + 1..n];
      cnt[input[i]] := cnt[input[i]] + 1;
      i := i - 1;
    }
    assert input[0..n] == input[..n];
    forall c: Byte ensures Occurrences(input[..n], c) == multiset(input[..n])[c] {
      OccurrencesCounted(input[..n], c);
    }
  }

  /** The histogram search, with its early exit as soon as an offset needs no escape at all. */
  method ChooseOffset(input: array<Byte>, n: int) returns (e: Byte)
    requires 0 < n <= input.Length
    ensures BestOffset(input[..n], e)
  {
    var cnt := CountBytes(input, n);
    ghost var bytes := input[..n];
    e := *;
    var m := n;
    var i := 1;
    while i < 256
      invariant 1 <= i <= 256
      invariant forall c: Byte :: cnt[c] == Occurrences(bytes, c)
      invariant m == n || (IsOffset(e) && e < i && Escapes(bytes, e) == m < n)
      invariant forall k :: IsOffset(k) && k < i ==> m <= Escapes(bytes, k)
      invariant m < n ==> forall k :: IsOffset(k) && k < e ==> m < Escapes(bytes, k)
    {
      if i != QUOTE {
        var sum := cnt[i] + cnt[(i + 1) % 256] + cnt[(i + QUOTE) % 256];
        EscapesFromHistogram(bytes, i);
        if sum < m {
          m := sum;
          e := i;
          if m == 0 { break; }
        }
      }
      i := i + 1;
    }
    OffsetChosen(bytes);
  }

  lemma EmptyBody(e: int)
    ensures Body([], e) == []
  {
  }

  lemma BodyStep(text: seq<Byte>, j: nat, bytes: seq<Byte>, i: nat, e: Byte)
    requires i < |bytes| && j <= |text| && text[j..] == Body(bytes[i..], e)
    ensures var esc := Escape(Shifted(bytes[i], e));
      && j + |esc| <= |text|
      && text[j] == esc[0] && (|esc| == 2 ==> text[j + 1] == esc[1])
      && text[j + |esc|..] == Body(bytes[i + 1..], e)
  {
    var esc := Escape(Shifted(bytes[i], e));
    assert bytes[i..][1..] == bytes[i + 1..];
    assert text[j..] == esc + Body(bytes[i + 1..], e);
    assert text[j] == text[j..][0];
    assert |esc| == 2 ==> text[j + 1] == text[j..][1];
    assert text[j + |esc|..] == text[j..][|esc|..];
  }

  method WriteEscaped(out: array<Byte>, j: nat, c: Byte) returns (next: nat)
    requires j + |Escape(c)| <= out.Length
    modifies out
    ensures next == j + |Escape(c)|
    ensures out[j] == Escape(c)[0] && (next == j + 2 ==> out[j + 1] == Escape(c)[1])
    ensures forall k :: 0 <= k < j || next <= k < out.Length ==> out[k] == old(out[k])
  {
    next := j;
    if c == 0 {
      out[next] := 1;
      next := next + 1;
      out[next] := 1;
    } else if c == 1 {
      out[next] := 1;
      next := next + 1;
      out[next] := 2;
    } else if c == QUOTE {
      out[next] := 1;
      next := next + 1;
      out[next] := 3;
    } else {
      out[next] := c;
    }
    next := next + 1;
  }

  /** The writing loop, from the second output byte on. */
  method WriteBody(input: array<Byte>, n: nat, out: array<Byte>, e: Byte) returns (j: int)
    requires n <= input.Length && input != out
    requires 1 + |Body(input[..n], e)| < out.Length
    modifies out
    ensures j == 1 + |Body(input[..n], e)|
    ensures out[1..j] == Body(input[..n], e)
    ensures out[0] == old(out[0]) && out[j..] == old(out[..])[j..]
  {
    hide Body, Escape;
    ghost var bytes := input[..n];
    ghost var text := [out[0]] + Body(bytes, e);
    assert bytes[0..] == bytes;
    EmptyBody(e);
    assert bytes[n..] == [];
    j := 1;
    var i := 0;
    while i < n
      invariant 0 <= i <= n && 1 <= j <= |text| < out.Length
      invariant text[j..] == Body(bytes[i..], e)
      invariant forall k :: 0 <= k < j ==> out[k] == text[k]
      invariant forall k :: j <= k < out.Length ==> out[k] == old(out[k])
    {
      var c := Shifted(input[i], e);
      assert input[i] == bytes[i];
      BodyStep(text, j, bytes, i, e);
      j := WriteEscaped(out, j, c);
      i := i + 1;
    }
  }

  method EncodeBinary(input: array<Byte>, n: int, out: array<Byte>) returns (j: int)
    requires n <= input.Length && input != out
    requires DocumentedSize(if n < 0 then 0 else n) <= out.Length
    modifies out
    ensures 0 <= j < out.Length && out[j] == 0
    ensures IsEncoding(if n <= 0 then [] else input[..n], out[..j])
    ensures out[j + 1..] == old(out[..])[j + 1..]
  {
    if n <= 0 {
      out[0] := EMPTY_MARK;
      out[1] := 0;
      return 1;
    }
    var e := ChooseOffset(input, n);
    ghost var text := [e] + Body(input[..n], e);
    EncodingSize(input[..n], text);
    out[0] := e;
    j := WriteBody(input, n, out, e);
    out[j] := 0;
    assert out[..j] == text;
  }

  // ---------- The decoder ----------

  lemma CStringStep(buffer: seq<Byte>, p: nat)
    requires p < |buffer| && 0 in buffer[p..] && buffer[p] != 0
    ensures p + 1 < |buffer| && 0 in buffer[p + 1..]
    ensures CString(buffer[p..]) == [buffer[p]] + CString(buffer[p + 1..])
  {
    assert buffer[p..] == [buffer[p]] + buffer[p + 1..];
  }

  lemma DecodeEnd(buffer: seq<Byte>, p: nat, e: Byte, all: Decoding, i: nat)
    requires p < |buffer| && buffer[p] == 0 && i <= |all.bytes|
    requires Decoded(CString(buffer[p..]), e) == Decoding(all.bytes[i..], all.wellFormed)
    ensures i == |all.bytes| && all.wellFormed
  {
  }

  /** One turn of the decoding loop, when the bytes still to be written are all[i..]. */
  lemma DecodeStep(buffer: seq<Byte>, p: nat, e: Byte, all: Decoding, i: nat)
    requires p < |buffer| && 0 in buffer[p..] && buffer[p] != 0 && i <= |all.bytes|
    requires Decoded(CString(buffer[p..]), e) == Decoding(all.bytes[i..], all.wellFormed)
    ensures p + 1 < |buffer| && 0 in buffer[p + 1..]
    ensures buffer[p] != 1 ==>
      && i < |all.bytes| && all.bytes[i] == Unshifted(buffer[p], e)
      && Decoded(CString(buffer[p + 1..]), e) == Decoding(all.bytes[i + 1..], all.wellFormed)
    ensures buffer[p] == 1 && 1 <= buffer[p + 1] <= 3 ==>
      && p + 2 < |buffer| && 0 in buffer[p + 2..]
      && i < |all.bytes| && all.bytes[i] == Unshifted(Unescape(buffer[p + 1]), e)
      && Decoded(CString(buffer[p + 2..]), e) == Decoding(all.bytes[i + 1..], all.wellFormed)
    ensures buffer[p] == 1 && !(1 <= buffer[p + 1] <= 3) ==> i == |all.bytes| && !all.wellFormed
  {
    hide Decoded, CString;
    CStringStep(buffer, p);
    var k, rest := buffer[p + 1], CString(buffer[p + 1..]);
    if buffer[p] != 1 {
      DecodesSingle(buffer[p], rest, e);
      TakeFirst(all.bytes, i, Unshifted(buffer[p], e), Decoded(rest, e).bytes);
    } else if k == 0 {
      CStringEnd(buffer, p + 1);
      DecodingEnds(e);
      assert [1] + [] == [1];
    } else {
      CStringStep(buffer, p + 1);
      var rest := CString(buffer[p + 2..]);
      assert [1] + ([k] + rest) == [1, k] + rest;
      DecodesPair(k, rest, e);
      if k <= 3 {
        TakeFirst(all.bytes, i, Unshifted(Unescape(k), e), Decoded(rest, e).bytes);
      }
    }
  }

  lemma CStringEnd(buffer: seq<Byte>, p: nat)
    requires p < |buffer| && buffer[p] == 0
    ensures CString(buffer[p..]) == []
  {
  }

  lemma TakeFirst(bytes: seq<Byte>, i: nat, first: Byte, rest: seq<Byte>)
    requires i <= |bytes| && bytes[i..] == [first] + rest
    ensures i < |bytes| && bytes[i] == first && bytes[i + 1..] == rest
  {
    assert bytes[i..][0] == bytes[i] && bytes[i..][1..] == bytes[i + 1..];
  }

  lemma {:induction false} DecodedIsShorter(text: seq<Byte>, e: Byte)
    ensures |Decoded(text, e).bytes| <= |text|
    decreases |text|
  {
    if text != [] {
      DecodedIsShorter(text[1..], e);
      if |text| > 1 {
        DecodedIsShorter(text[2..], e);
      }
    }
  }

  lemma {:induction false} CStringIsShorter(buffer: seq<Byte>)
    ensures |CString(buffer)| <= |buffer|
  {
    if buffer != [] {
      CStringIsShorter(buffer[1..]);
    }
  }

  /** A buffer always has room for its own decoding. */
  lemma InPlaceFits(buffer: seq<Byte>)
    requires buffer != []
    ensures |Decoded(CString(buffer[1..]), buffer[0]).bytes| < |buffer|
  {
    DecodedIsShorter(CString(buffer[1..]), buffer[0]);
    CStringIsShorter(buffer[1..]);
  }

  /** input and out may be the same array: the write index stays behind the read index. */
  method DecodeBinary(input: array<Byte>, out: array<Byte>) returns (r: int)
    requires input.Length != 0 && 0 in input[1..]
    requires |Decoded(CString(input[1..]), input[0]).bytes| <= out.Length
    modifies out
    ensures var d := old(Decoded(CString(input[1..]), input[0]));
      && r == (if d.wellFormed then |d.bytes| else -1)
      && out[..] == d.bytes + old(out[..])[|d.bytes|..]
  {
    hide Decoded, CString;
    ghost var buffer := input[..];
    var e := input[0];
    var p, i := 1, 0;
    ghost var d := Decoded(CString(buffer[1..]), e);
    while input[p] != 0
      invariant 0 <= i < p < input.Length && i <= |d.bytes| <= out.Length
      invariant forall k :: p <= k < input.Length ==> input[k] == buffer[k]
      invariant 0 in buffer[p..]
      invariant Decoded(CString(buffer[p..]), e) == Decoding(d.bytes[i..], d.wellFormed)
      invariant forall k :: 0 <= k < i ==> out[k] == d.bytes[k]
      invariant forall k :: i <= k < out.Length ==> out[k] == old(out[k])
      decreases input.Length - p
    {
      DecodeStep(buffer, p, e, d, i);
      var c := input[p];
      p := p + 1;
      if c == 1 {
        c := input[p];
        p := p + 1;
        if c == 1 {
          c := 0;
        } else if c == 2 {
          c := 1;
        } else if c == 3 {
          c := QUOTE;
        } else {
          assert out[..] == d.bytes + old(out[..])[|d.bytes|..];
          return -1;
        }
      }
      out[i] := Unshifted(c, e);
      i := i + 1;
    }
    DecodeEnd(buffer, p, e, d, i);
    r := i;
    assert out[..] == d.bytes + old(out[..])[|d.bytes|..];
  }

  lemma Terminated(buffer: seq<Byte>, len: nat)
    requires 0 < len < |buffer| && buffer[len] == 0
    ensures buffer[1..] == buffer[..len][1..] + [0] + buffer[len + 1..] && 0 in buffer[1..]
  {
    assert buffer[1..][len - 1] == 0;
  }

  /** The check that encode.c's own test driver makes for one input buffer. */
  method EncoderCheck(input: array<Byte>, out: array<Byte>) returns (j: int)
    requires input != out && DocumentedSize(input.Length) <= out.Length
    modifies out
    ensures j == input.Length && out[..j] == input[..] == old(input[..])
  {
    hide IsEncoding, Decoded, CString;
    ghost var bytes := input[..];
    var len := EncodeBinary(input, input.Length, out);
    ghost var text := out[..len];
    assert input[..input.Length] == bytes && (bytes == [] ==> input[..0] == bytes);
    EncodingDecodes(bytes, text);
    Terminated(out[..], len);
    CStringOfTerminated(text[1..], out[len + 1..]);
    assert out[1..] == out[..][1..] && out[..][len + 1..] == out[len + 1..] && out[0] == text[0];
    j := DecodeBinary(out, out);
  }
}
