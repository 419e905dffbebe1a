/**
 The DICT and DICTREAL collations of sqlite3/generic/sqlite.c.

 A text is a zero-terminated C string without its terminator.  Both comparators walk
 two cursors; reading past a terminator is an outcome of its own, Overrun.
 */
module Collation {
  import opened Common

  /** A non-zero C char; only the 7-bit ones are digits or letters. */
  type Char = c: int | -128 <= c < 128 && c != 0 witness 1

  type Text = seq<Char>

  datatype Outcome = Value(diff: int) | Overrun

  const ZERO := 48
  const POINT := 46

  predicate IsDigit(c: int) { 48 <= c <= 57 }

  predicate IsUpper(c: int) { 65 <= c <= 90 }

  predicate IsLower(c: int) { 97 <= c <= 122 }

  function ToLower(c: int): int { if IsUpper(c) then c + 32 else c }

  function Sign(x: int): int { if x < 0 then -1 else if x > 0 then 1 else 0 }

  /** The character under a cursor: of the text, or its terminator. */
  function At(s: Text, i: nat): int
    requires i <= |s|
  {
    if i < |s| then s[i] else 0
  }

  // ---------- The comparison, token by token ----------

  function SkipZeros(s: Text, i: nat): (z: nat)
    requires i <= |s|
    ensures i <= z <= |s| && At(s, z) != ZERO
    ensures forall k :: i <= k < z ==> s[k] == ZERO
    decreases |s| - i
  {
    if At(s, i) == ZERO then SkipZeros(s, i + 1) else i
  }

  function SkipDigits(s: Text, i: nat): (e: nat)
    requires i <= |s|
    ensures i <= e <= |s| && !IsDigit(At(s, e))
    ensures forall k :: i <= k < e ==> IsDigit(s[k])
    decreases |s| - i
  {
    if IsDigit(At(s, i)) then SkipDigits(s, i + 1) else i
  }

  /** An embedded number; the first of its digits may be any character, see NumberAt. */
  datatype Number = Number(zeros: nat, digits: seq<int>, fraction: Option<seq<int>>, end: nat)

  /**
   The number at a digit: leading zeros, then one character whatever it is, then the
   digits after it and, for DICTREAL, a point and its digits.  None when only zeros are left.
   */
  function NumberAt(s: Text, i: nat, decimal: bool): (n: Option<Number>)
    requires i <= |s|
    ensures n.Some? ==> i < n.value.end <= |s| && n.value.digits != []
  {
    var z := SkipZeros(s, i);
    if z == |s| then None else Some(NumberFrom(s, i, z, decimal))
  }

  /** What the comparators see of a number once its zeros up to z are skipped. */
  function NumberFrom(s: Text, i: nat, z: nat, decimal: bool): (n: Number)
    requires i <= z < |s|
    ensures z < n.end <= |s| && n.digits != []
  {
    var e := SkipDigits(s, z + 1);
    if decimal && At(s, e) == POINT then
      var f := SkipDigits(s, e + 1);
      Number(z - i, s[z..e], Some(s[e + 1..f]), f)
    else
      Number(z - i, s[z..e], None, e)
  }

  /** The first non-zero difference of elements at equal positions. */
  function FirstDiff(a: seq<int>, b: seq<int>): int {
    if a == [] || b == [] then 0 else if a[0] != b[0] then a[0] - b[0] else FirstDiff(a[1..], b[1..])
  }

  function RunDiff(a: seq<int>, b: seq<int>): int {
    if |a| != |b| then Sign(|a| - |b|) else FirstDiff(a, b)
  }

  function FractionDiff(f: seq<int>, g: seq<int>): int {
    if FirstDiff(f, g) != 0 then FirstDiff(f, g) else Sign(|f| - |g|)
  }

  function NumberDiff(a: Number, b: Number): int {
    if RunDiff(a.digits, b.digits) != 0 then RunDiff(a.digits, b.digits)
    else if a.fraction.Some? && b.fraction.Some? then FractionDiff(a.fraction.value, b.fraction.value)
    else if a.fraction.Some? then -1
    else if b.fraction.Some? then 1
    else 0
  }

  function CharDiff(x: int, y: int): int {
    if IsUpper(x) && IsLower(y) then ToLower(x) - y
    else if IsUpper(y) && IsLower(x) then x - ToLower(y)
    else x - y
  }

  function CaseDiff(x: int, y: int): int {
    if IsUpper(x) && IsLower(y) then -1 else if IsUpper(y) && IsLower(x) then 1 else 0
  }

  function FirstOf(secondary: int, next: int): int {
    if secondary == 0 then next else secondary
  }

  /** What the comparators return from cursors l and r with a pending secondary difference. */
  function Compare(s: Text, l: nat, t: Text, r: nat, secondary: int, decimal: bool): Outcome
    requires l <= |s| && r <= |t|
    decreases |s| - l
  {
    var x, y := At(s, l), At(t, r);
    if IsDigit(x) && IsDigit(y) then
      var a, b := NumberAt(s, l, decimal), NumberAt(t, r, decimal);
      if a.None? || b.None? then Overrun
      else
        var d := NumberDiff(a.value, b.value);
        if d != 0 then Value(d)
        else Compare(s, a.value.end, t, b.value.end, FirstOf(secondary, a.value.zeros - b.value.zeros), decimal)
    else
      var d := CharDiff(x, y);
      if d != 0 then Value(d)
      else if x == 0 then Value(secondary)
      else Compare(s, l + 1, t, r + 1, FirstOf(secondary, CaseDiff(x, y)), decimal)
  }

  function Collate(s: Text, t: Text, decimal: bool): Outcome {
    Compare(s, 0, t, 0, 0, decimal)
  }

  // ---------- The comparators ----------

  lemma {:induction false} FirstDiffSnoc(a: seq<int>, b: seq<int>, x: int, y: int)
    requires |a| == |b|
    ensures FirstDiff(a + [x], b + [y]) == FirstOf(FirstDiff(a, b), x - y)
  {
    if a != [] {
      FirstDiffSnoc(a[1..], b[1..], x, y);
      assert (a + [x])[1..] == a[1..] + [x] && (b + [y])[1..] == b[1..] + [y];
    }
  }

  /** Both zero-skipping loops: how many more leading zeros the left number has. */
  method SkipLeadingZeros(left: Text, l0: nat, right: Text, r0: nat) returns (l: nat, r: nat, zeros: int)
    requires l0 <= |left| && r0 <= |right|
    ensures l == SkipZeros(left, l0) && r == SkipZeros(right, r0) && zeros == (l - l0) - (r - r0)
  {
    l, r, zeros := l0, r0, 0;
    while At(right, r) == ZERO && r < |right|
      invariant r0 <= r <= |right| && zeros == r0 - r && SkipZeros(right, r) == SkipZeros(right, r0)
    {
      r := r + 1;
      zeros := zeros - 1;
    }
    while At(left, l) == ZERO && l < |left|
      invariant l0 <= l <= |left| && zeros == (l - l0) - (r - r0) && SkipZeros(left, l) == SkipZeros(left, l0)
    {
      l := l + 1;
      zeros := zeros + 1;
    }
  }

  /** One turn: step both cursors, remembering the first difference. */
  lemma RunStep(left: Text, zl: nat, l: nat, right: Text, zr: nat, r: nat, diff: int)
    requires zl <= l < |left| && zr <= r < |right| && l - zl == r - zr
    requires l < SkipDigits(left, zl + 1) && r < SkipDigits(right, zr + 1)
    requires diff == FirstDiff(left[zl..l], right[zr..r])
    ensures FirstOf(diff, At(left, l) - At(right, r)) == FirstDiff(left[zl..l + 1], right[zr..r + 1])
    ensures IsDigit(At(left, l + 1)) <==> l + 1 < SkipDigits(left, zl + 1)
    ensures IsDigit(At(right, r + 1)) <==> r + 1 < SkipDigits(right, zr + 1)
  {
    FirstDiffSnoc(left[zl..l], right[zr..r], left[l], right[r]);
    assert left[zl..l + 1] == left[zl..l] + [left[l]] && right[zr..r + 1] == right[zr..r] + [right[r]];
  }

  method CompareRuns(left: Text, zl: nat, right: Text, zr: nat) returns (result: Outcome, l: nat, r: nat)
    requires zl <= |left| && zr <= |right|
    ensures zl == |left| || zr == |right| ==> result == Overrun
    ensures zl < |left| && zr < |right| ==>
      var a, b := NumberFrom(left, zl, zl, false), NumberFrom(right, zr, zr, false);
      result == Value(NumberDiff(a, b)) && (result == Value(0) ==> l == a.end && r == b.end)
  {
    hide SkipDigits, FirstDiff;
    var diff := 0;
    l, r := zl, zr;
    EmptyFirstDiff();
    assert left[zl..zl] == [] && right[zr..zr] == [];
    while true
      invariant zl <= l <= |left| && zr <= r <= |right| && l - zl == r - zr
      invariant zl < |left| && zr < |right| ==>
        && l < SkipDigits(left, zl + 1) && r < SkipDigits(right, zr + 1)
        && diff == FirstDiff(left[zl..l], right[zr..r])
      invariant zl == |left| || zr == |right| ==> l == zl
      decreases |left| - l
    {
      if zl < |left| && zr < |right| {
        RunStep(left, zl, l, right, zr, r, diff);
      }
      if diff == 0 {
        diff := At(left, l) - At(right, r);
      }
      r := r + 1;
      l := l + 1;
      if r > |right| || l > |left| {
        return Overrun, l, r;
      }
      if !IsDigit(At(right, r)) {
        if IsDigit(At(left, l)) {
          return Value(1), l, r;
        } else {
          return Value(diff), l, r;
        }
      } else if !IsDigit(At(left, l)) {
        return Value(-1), l, r;
      }
    }
  }

  lemma EmptyFirstDiff()
    ensures FirstDiff([], []) == 0
  {
  }

  lemma CompareAtNumbers(s: Text, l: nat, t: Text, r: nat, secondary: int, decimal: bool)
    requires l < |s| && r < |t| && IsDigit(s[l]) && IsDigit(t[r])
    ensures var zl, zr := SkipZeros(s, l), SkipZeros(t, r);
      Compare(s, l, t, r, secondary, decimal)
        == if zl == |s| || zr == |t| then Overrun
           else
             var a, b := NumberFrom(s, zl, zl, decimal), NumberFrom(t, zr, zr, decimal);
             var d := NumberDiff(a, b);
             if d != 0 then Value(d)
             else Compare(s, a.end, t, b.end, FirstOf(secondary, (zl - l) - (zr - r)), decimal)
  {
    hide SkipDigits, SkipZeros, NumberFrom, NumberDiff;
    var zl, zr := SkipZeros(s, l), SkipZeros(t, r);
    if zl < |s| && zr < |t| {
      ZerosAside(s, l, zl, t, r, zr, decimal);
    }
  }

  lemma ZerosAside(s: Text, l: nat, zl: nat, t: Text, r: nat, zr: nat, decimal: bool)
    requires l <= zl < |s| && r <= zr < |t|
    ensures NumberFrom(s, l, zl, decimal) == NumberFrom(s, zl, zl, decimal).(zeros := zl - l)
    ensures NumberFrom(t, r, zr, decimal) == NumberFrom(t, zr, zr, decimal).(zeros := zr - r)
    ensures NumberDiff(NumberFrom(s, l, zl, decimal), NumberFrom(t, r, zr, decimal))
         == NumberDiff(NumberFrom(s, zl, zl, decimal), NumberFrom(t, zr, zr, decimal))
  {
    hide SkipDigits, FirstDiff, FractionDiff;
  }

  method CollateDictionary(left: Text, right: Text) returns (result: Outcome)
    ensures result == Collate(left, right, false)
  {
    hide SkipDigits, SkipZeros, NumberFrom, NumberAt, NumberDiff;
    var l, r, secondaryDiff := 0, 0, 0;
    while true
      invariant 0 <= l <= |left| && 0 <= r <= |right|
      invariant Compare(left, l, right, r, secondaryDiff, false) == Collate(left, right, false)
      decreases |left| - l
    {
      var diff: int;
      if IsDigit(At(right, r)) && IsDigit(At(left, l)) {
        CompareAtNumbers(left, l, right, r, secondaryDiff, false);
        var zl, zr, zeros := SkipLeadingZeros(left, l, right, r);
        result, l, r := CompareRuns(left, zl, right, zr);
        if result != Value(0) {
          return;
        }
        if secondaryDiff == 0 {
          secondaryDiff := zeros;
        }
        continue;
      }
      diff := At(left, l) - At(right, r);
      if diff != 0 {
        if IsUpper(At(left, l)) && IsLower(At(right, r)) {
          diff := ToLower(At(left, l)) - At(right, r);
          if diff != 0 {
            return Value(diff);
          } else if secondaryDiff == 0 {
            secondaryDiff := -1;
          }
        } else if IsUpper(At(right, r)) && IsLower(At(left, l)) {
          diff := At(left, l) - ToLower(At(right, r));
          if diff != 0 {
            return Value(diff);
          } else if secondaryDiff == 0 {
            secondaryDiff := 1;
          }
        } else {
          return Value(diff);
        }
      }
      if At(left, l) == 0 {
        if diff == 0 {
          diff := secondaryDiff;
        }
        return Value(diff);
      }
      l := l + 1;
      r := r + 1;
    }
  }

  /** The loop over the digits after two points. */
  method CompareFractions(left: Text, pl: nat, right: Text, pr: nat) returns (diff: int, l: nat, r: nat)
    requires pl < |left| && pr < |right|
    ensures var f, g := SkipDigits(left, pl + 1), SkipDigits(right, pr + 1);
      && diff == FractionDiff(left[pl + 1..f], right[pr + 1..g])
      && (diff == 0 ==> l == f && r == g)
  {
    hide SkipDigits, FirstDiff;
    ghost var e, g := SkipDigits(left, pl + 1), SkipDigits(right, pr + 1);
    l, r := pl, pr;
    while true
      invariant pl <= l < e && pr <= r < g && l - pl == r - pr
      invariant left[pl + 1..l + 1] == right[pr + 1..r + 1]
      decreases |left| - l
    {
      r := r + 1;
      l := l + 1;
      ghost var k := l - pl - 1;
      assert left[pl + 1..e][..k] == left[pl + 1..l] && right[pr + 1..g][..k] == right[pr + 1..r];
      FractionStep(left[pl + 1..e], right[pr + 1..g], k);
      if !IsDigit(At(right, r)) {
        if !IsDigit(At(left, l)) {
          return 0, l, r;
        } else {
          return 1, l, r;
        }
      } else if !IsDigit(At(left, l)) {
        return -1, l, r;
      }
      diff := At(left, l) - At(right, r);
      if diff != 0 {
        return;
      }
      assert left[pl + 1..l + 1] == left[pl + 1..l] + [left[l]];
      assert right[pr + 1..r + 1] == right[pr + 1..r] + [right[r]];
    }
  }

  lemma {:induction false} FractionStep(f: seq<int>, g: seq<int>, k: nat)
    requires k <= |f| && k <= |g| && f[..k] == g[..k]
    ensures k == |f| || k == |g| ==> FractionDiff(f, g) == Sign(|f| - |g|)
    ensures k < |f| && k < |g| && f[k] != g[k] ==> FractionDiff(f, g) == f[k] - g[k]
  {
    if k != 0 {
      assert f[0] == f[..k][0] && g[0] == g[..k][0];
      assert f[1..][..k - 1] == f[..k][1..] && g[1..][..k - 1] == g[..k][1..];
      FractionStep(f[1..], g[1..], k - 1);
    }
  }

  method CompareRealRuns(left: Text, zl: nat, right: Text, zr: nat) returns (result: Outcome, l: nat, r: nat)
    requires zl <= |left| && zr <= |right|
    ensures zl == |left| || zr == |right| ==> result == Overrun
    ensures zl < |left| && zr < |right| ==>
      var a, b := NumberFrom(left, zl, zl, true), NumberFrom(right, zr, zr, true);
      result == Value(NumberDiff(a, b)) && (result == Value(0) ==> l == a.end && r == b.end)
  {
    hide SkipDigits, FirstDiff, FractionDiff;
    var diff := 0;
    l, r := zl, zr;
    EmptyFirstDiff();
    assert left[zl..zl] == [] && right[zr..zr] == [];
    while true
      invariant zl <= l <= |left| && zr <= r <= |right| && l - zl == r - zr
      invariant zl < |left| && zr < |right| ==>
        && l < SkipDigits(left, zl + 1) && r < SkipDigits(right, zr + 1)
        && diff == FirstDiff(left[zl..l], right[zr..r])
      invariant zl == |left| || zr == |right| ==> l == zl
      decreases |left| - l
    {
      if zl < |left| && zr < |right| {
        RunStep(left, zl, l, right, zr, r, diff);
      }
      if diff == 0 {
        diff := At(left, l) - At(right, r);
      }
      r := r + 1;
      l := l + 1;
      if r > |right| || l > |left| {
        return Overrun, l, r;
      }
      if At(left, l) == POINT {
        if IsDigit(At(right, r)) {
          return Value(-1), l, r;
        }
        if At(right, r) != POINT {
          return Value(if diff != 0 then diff else -1), l, r;
        }
        if diff != 0 {
          return Value(diff), l, r;
        }
        diff, l, r := CompareFractions(left, l, right, r);
        return Value(diff), l, r;
      } else if At(right, r) == POINT {
        if IsDigit(At(left, l)) {
          return Value(1), l, r;
        }
        return Value(if diff != 0 then diff else 1), l, r;
      } else if !IsDigit(At(right, r)) {
        return Value(if IsDigit(At(left, l)) then 1 else diff), l, r;
      } else if !IsDigit(At(left, l)) {
        return Value(-1), l, r;
      }
    }
  }

  method CollateDictreal(left: Text, right: Text) returns (result: Outcome)
    ensures result == Collate(left, right, true)
  {
    hide SkipDigits, SkipZeros, NumberFrom, NumberDiff;
    var l, r, secondaryDiff := 0, 0, 0;
    while true
      invariant 0 <= l <= |left| && 0 <= r <= |right|
      invariant Compare(left, l, right, r, secondaryDiff, true) == Collate(left, right, true)
      decreases |left| - l
    {
      var diff: int;
      if IsDigit(At(right, r)) && IsDigit(At(left, l)) {
        CompareAtNumbers(left, l, right, r, secondaryDiff, true);
        var zl, zr, zeros := SkipLeadingZeros(left, l, right, r);
        result, l, r := CompareRealRuns(left, zl, right, zr);
        if result != Value(0) {
          return;
        }
        if secondaryDiff == 0 {
          secondaryDiff := zeros;
        }
        continue;
      }
      diff := At(left, l) - At(right, r);
      if diff != 0 {
        if IsUpper(At(left, l)) && IsLower(At(right, r)) {
          diff := ToLower(At(left, l)) - At(right, r);
          if diff != 0 {
            return Value(diff);
          } else if secondaryDiff == 0 {
            secondaryDiff := -1;
          }
        } else if IsUpper(At(right, r)) && IsLower(At(left, l)) {
          diff := At(left, l) - ToLower(At(right, r));
          if diff != 0 {
            return Value(diff);
          } else if secondaryDiff == 0 {
            secondaryDiff := 1;
          }
        } else {
          return Value(diff);
        }
      }
      if At(left, l) == 0 {
        if diff == 0 {
          diff := secondaryDiff;
        }
        return Value(diff);
      }
      l := l + 1;
      r := r + 1;
    }
  }
}
