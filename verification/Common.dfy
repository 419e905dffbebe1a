/** Definitions shared by the models. */
module Common {
  datatype Option<+T> = None | Some(value: T)

  function Max(a: int, b: int): int { if a < b then b else a }

  type Byte = b: int | 0 <= b < 256

  lemma Regrouped<T>(a: seq<T>, b: seq<T>, c: seq<T>)
    ensures a + (b + c) == a + b + c
  {
  }

  lemma CutAt<T>(s: seq<T>, k: nat)
    requires k <= |s|
    ensures s == s[..k] + s[k..]
    ensures k < |s| ==> s[k..][0] == s[k] && s[k..][1..] == s[k + 1..]
  {
  }

  /** realloc: the start of the buffer is kept. */
  method Reallocate<T(0)>(buffer: array<T>, size: nat) returns (resized: array<T>)
    ensures fresh(resized) && resized.Length == size
    ensures forall k :: 0 <= k < size && k < buffer.Length ==> resized[k] == buffer[k]
    ensures buffer.Length <= size ==> resized[..buffer.Length] == buffer[..]
  {
    resized := new T[size];
    forall k | 0 <= k < size && k < buffer.Length {
      resized[k] := buffer[k];
    }
  }
}
