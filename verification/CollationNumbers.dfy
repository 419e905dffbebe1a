/**
 The numbers embedded in a text, which the collations compare without converting them:
 exactly when DICT orders them by integer value, and DICTREAL by real value.
 */
module CollationNumbers {
  import opened Common
  import opened Collation
  import opened CollationOrder
  import opened CollationKeys

  // ---------- Digit runs as integers ----------

  function DigitsValue(d: seq<int>): int {
    if d == [] then 0 else 10 * DigitsValue(d[..|d| - 1]) + d[|d| - 1] - 48
  }

  function Pow10(n: nat): nat {
    if n == 0 then 1 else 10 * Pow10(n - 1)
  }

  lemma {:induction false} DigitsValueBounds(d: seq<int>)
    requires AllDigits(d)
    ensures 0 <= DigitsValue(d) < Pow10(|d|)
    ensures d != [] && d[0] != ZERO ==> Pow10(|d| - 1) <= DigitsValue(d)
  {
    if |d| > 0 {
      DigitsValueBounds(d[..|d| - 1]);
    }
  }

  lemma {:induction false} Pow10Monotone(m: nat, n: nat)
    requires m <= n
    ensures Pow10(m) <= Pow10(n)
  {
    if m < n {
      Pow10Monotone(m, n - 1);
    }
  }

  lemma {:induction false} SameLengthByValue(a: seq<int>, b: seq<int>)
    requires AllDigits(a) && AllDigits(b) && |a| == |b|
    ensures Sign(FirstDiff(a, b)) == Sign(DigitsValue(a) - DigitsValue(b))
  {
    if a != [] {
      var a', b', x, y := a[..|a| - 1], b[..|b| - 1], a[|a| - 1], b[|b| - 1];
      SameLengthByValue(a', b');
      FirstDiffSnoc(a', b', x, y);
      assert a == a' + [x] && b == b' + [y];
    }
  }

  lemma RunsByValue(a: seq<int>, b: seq<int>)
    requires AllDigits(a) && AllDigits(b) && a != [] && b != [] && a[0] != ZERO && b[0] != ZERO
    ensures Sign(RunDiff(a, b)) == Sign(DigitsValue(a) - DigitsValue(b))
  {
    DigitsValueBounds(a);
    DigitsValueBounds(b);
    if |a| == |b| {
      SameLengthByValue(a, b);
    } else if |a| < |b| {
      Pow10Monotone(|a|, |b| - 1);
    } else {
      Pow10Monotone(|b|, |a| - 1);
    }
  }

  lemma {:induction false} LeadingZerosKeepValue(zeros: seq<int>, d: seq<int>)
    requires forall i :: 0 <= i < |zeros| ==> zeros[i] == ZERO
    ensures DigitsValue(zeros + d) == DigitsValue(d)
    decreases |zeros| + |d|
  {
    var all := zeros + d;
    if d != [] {
      LeadingZerosKeepValue(zeros, d[..|d| - 1]);
      assert all[..|all| - 1] == zeros + d[..|d| - 1];
    } else if zeros != [] {
      LeadingZerosKeepValue(zeros[..|zeros| - 1], []);
      assert all[..|all| - 1] == zeros[..|zeros| - 1] + [];
    }
  }

  /** The value of the whole run of digits at i, leading zeros included. */
  function IntegerAt(s: Text, i: nat): int
    requires i <= |s|
  {
    DigitsValue(s[i..SkipDigits(s, i)])
  }

  lemma {:induction false} SkipDigitsFrom(s: Text, i: nat, j: nat)
    requires i <= j <= |s| && forall k :: i <= k < j ==> IsDigit(s[k])
    ensures SkipDigits(s, i) == SkipDigits(s, j)
    decreases j - i
  {
    if i < j {
      SkipDigitsFrom(s, i + 1, j);
    }
  }

  lemma IntegerWithoutZeros(s: Text, i: nat)
    requires i < |s| && IsDigit(s[i]) && NonzeroAhead(s, i)
    ensures var z := SkipZeros(s, i);
      && z < |s| && SkipDigits(s, z + 1) == SkipDigits(s, i)
      && AllDigits(s[z..SkipDigits(s, i)]) && DigitsValue(s[z..SkipDigits(s, i)]) == IntegerAt(s, i)
  {
    hide SkipDigits, SkipZeros, DigitsValue;
    var z := SkipZeros(s, i);
    SkipDigitsFrom(s, i, z + 1);
    var e := SkipDigits(s, z + 1);
    LeadingZerosKeepValue(s[i..z], s[z..e]);
    assert s[i..e] == s[i..z] + s[z..e];
  }

  lemma NumberValue(s: Text, i: nat, decimal: bool)
    requires i < |s| && IsDigit(s[i]) && NonzeroAhead(s, i)
    ensures NumberAt(s, i, decimal).Some?
    ensures var n := NumberAt(s, i, decimal).value;
      && AllDigits(n.digits) && n.digits[0] != ZERO && DigitsValue(n.digits) == IntegerAt(s, i)
      && (!decimal ==> n.end == SkipDigits(s, i))
  {
    hide SkipDigits, SkipZeros, DigitsValue, IntegerAt, AllDigits;
    IntegerWithoutZeros(s, i);
  }

  lemma NumbersDecide(s: Text, l: nat, t: Text, r: nat, secondary: int, decimal: bool)
    requires l < |s| && r < |t| && IsDigit(s[l]) && IsDigit(t[r])
    requires NumberAt(s, l, decimal).Some? && NumberAt(t, r, decimal).Some?
    ensures var a, b := NumberAt(s, l, decimal).value, NumberAt(t, r, decimal).value;
      var d := NumberDiff(a, b);
      Compare(s, l, t, r, secondary, decimal)
        == if d != 0 then Value(d) else Compare(s, a.end, t, b.end, FirstOf(secondary, a.zeros - b.zeros), decimal)
  {
    hide NumberAt, NumberDiff;
  }

  // ---------- Numbers with a point as reals ----------

  function FractionValue(f: seq<int>): real {
    if f == [] then 0.0 else ((f[0] - 48) as real + FractionValue(f[1..])) / 10.0
  }

  function RealSign(x: real): int { if x < 0.0 then -1 else if x > 0.0 then 1 else 0 }

  lemma {:induction false} FractionValueBounds(f: seq<int>)
    requires AllDigits(f)
    ensures 0.0 <= FractionValue(f) < 1.0
  {
    if f != [] {
      FractionValueBounds(f[1..]);
    }
  }

  lemma {:induction false} FractionsByValue(f: seq<int>, g: seq<int>)
    requires AllDigits(f) && AllDigits(g)
    ensures var x, y := FractionValue(f), FractionValue(g);
      Sign(FractionDiff(f, g)) == if x != y then RealSign(x - y) else Sign(|f| - |g|)
  {
    FractionValueBounds(f);
    FractionValueBounds(g);
    if f != [] && g != [] {
      FractionValueBounds(f[1..]);
      FractionValueBounds(g[1..]);
      if f[0] == g[0] {
        FractionsByValue(f[1..], g[1..]);
      }
    }
  }

  function FractionDigits(n: Number): seq<int> {
    if n.fraction.Some? then n.fraction.value else []
  }

  function RealValue(n: Number): real {
    DigitsValue(n.digits) as real + FractionValue(FractionDigits(n))
  }

  lemma NumbersByRealValue(a: Number, b: Number)
    requires AllDigits(a.digits) && a.digits != [] && a.digits[0] != ZERO && DigitFraction(a)
    requires AllDigits(b.digits) && b.digits != [] && b.digits[0] != ZERO && DigitFraction(b)
    ensures var d := NumberDiff(a, b);
      var x, y, decimals := RealValue(a), RealValue(b), |FractionDigits(a)| - |FractionDigits(b)|;
      if DigitsValue(a.digits) == DigitsValue(b.digits) && a.fraction.Some? != b.fraction.Some? then
        d == if a.fraction.Some? then -1 else 1
      else if x != y then Sign(d) == RealSign(x - y)
      else Sign(d) == Sign(decimals)
  {
    var f, g := FractionDigits(a), FractionDigits(b);
    RunsByValue(a.digits, b.digits);
    FractionsByValue(f, g);
    FractionValueBounds(f);
    FractionValueBounds(g);
    hide RunDiff, FractionDiff, FractionValue, DigitsValue, AllDigits;
  }

  /** The text 0.5 sorts before the text 0.25. */
  lemma FewerDecimalsFirst()
    ensures Less([48, 46, 53], [48, 46, 50, 53], true)
  {
    var s: Text, t: Text := [48, 46, 53], [48, 46, 50, 53];
    assert SkipDigits(s, 2) == 3 && SkipDigits(t, 2) == 4;
  }

  /** The text 1.5 sorts before the text 1. */
  lemma PointSortsFirst()
    ensures Less([49, 46, 53], [49], true)
  {
  }

  // ---------- Numbers that are all zeros ----------

  /**
   What the digit loop takes for a run of zeros: the character after it, which is no digit,
   and the digits after that.
   */
  lemma ZeroRun(s: Text, i: nat, decimal: bool)
    requires i < |s| && IsDigit(s[i]) && !NonzeroAhead(s, i) && NumberAt(s, i, decimal).Some?
    ensures var z, n := SkipZeros(s, i), NumberAt(s, i, decimal).value;
      && z < |s| && z == SkipDigits(s, i) && IntegerAt(s, i) == 0
      && n.digits == s[z..SkipDigits(s, z + 1)] && n.digits[0] == s[z] && !IsDigit(s[z])
      && n.digits[1..] == s[z + 1..SkipDigits(s, z + 1)] && AllDigits(n.digits[1..])
  {
    var z := SkipZeros(s, i);
    SkipDigitsFrom(s, i, z);
    hide SkipDigits, SkipZeros, DigitsValue;
    LeadingZerosKeepValue(s[i..z], []);
    assert s[i..z] + [] == s[i..z];
    EmptyValue();
  }

  lemma EmptyValue()
    ensures DigitsValue([]) == 0 && FractionValue([]) == 0.0
  {
  }

  lemma StandInVerdict(a: Number, b: Number)
    requires a.digits != [] && b.digits != [] && !IsDigit(a.digits[0]) && IsDigit(b.digits[0])
    ensures var d := NumberDiff(a, b);
      d != 0 && (d < 0 <==> |a.digits| < |b.digits| || (|a.digits| == |b.digits| && a.digits[0] < ZERO))
  {
  }

  /**
   Zeros against a number that is not all zeros: which is less depends on how many digits
   follow the character after the zeros, and then on that character.
   */
  lemma ZerosAgainstNumber(s: Text, l: nat, t: Text, r: nat, secondary: int, decimal: bool)
    requires l < |s| && r < |t| && IsDigit(s[l]) && IsDigit(t[r])
    requires SkipZeros(s, l) < |s| && !NonzeroAhead(s, l) && NonzeroAhead(t, r)
    ensures var z, zr := SkipZeros(s, l), SkipZeros(t, r);
      var n, m := SkipDigits(s, z + 1) - z, SkipDigits(t, r) - zr;
      var c := Compare(s, l, t, r, secondary, decimal);
      c.Value? && c.diff != 0 && (c.diff < 0 <==> n < m || (n == m && s[z] < ZERO))
  {
    hide SkipDigits, SkipZeros, NonzeroAhead, IntegerAt, DigitsValue, AllDigits, Compare, NumberDiff;
    ZeroRun(s, l, decimal);
    NumberValue(t, r, decimal);
    IntegerWithoutZeros(t, r);
    NumbersDecide(s, l, t, r, secondary, decimal);
    StandInVerdict(NumberAt(s, l, decimal).value, NumberAt(t, r, decimal).value);
  }

  /**
   Zeros against zeros: the number of digits after the next character decides, then that
   character, then those digits.  Where the two next characters differ in a plain
   comparison, that outcome is kept exactly when the digits do not stand against it.
   */
  lemma ZerosAgainstZeros(s: Text, l: nat, t: Text, r: nat, secondary: int, decimal: bool)
    requires l < |s| && r < |t| && IsDigit(s[l]) && IsDigit(t[r])
    requires SkipZeros(s, l) < |s| && !NonzeroAhead(s, l) && SkipZeros(t, r) < |t| && !NonzeroAhead(t, r)
    ensures NumberAt(s, l, decimal).Some? && NumberAt(t, r, decimal).Some?
    ensures var a, b := NumberAt(s, l, decimal).value, NumberAt(t, r, decimal).value;
      var z, zr := SkipZeros(s, l), SkipZeros(t, r);
      var e, er := SkipDigits(s, z + 1), SkipDigits(t, zr + 1);
      var f, g := s[z..e], t[zr..er];
      var c := Compare(s, l, t, r, secondary, decimal);
      && (f != g ==> c == Value(if |f| != |g| then Sign(|f| - |g|) else FirstDiff(f, g)) && c.diff != 0)
      && (f == g && !decimal ==> c == Compare(s, e, t, er, FirstOf(secondary, a.zeros - b.zeros), decimal))
    ensures var z, zr := SkipZeros(s, l), SkipZeros(t, r);
      var n, m := SkipDigits(s, z + 1) - z, SkipDigits(t, zr + 1) - zr;
      var plain := Sign(CharDiff(s[z], t[zr]));
      var c := Compare(s, l, t, r, secondary, decimal);
      plain != 0 ==>
        && c.Value?
        && (Sign(c.diff) == plain <==> if n != m then Sign(n - m) == plain else Sign(At(s, z) - At(t, zr)) == plain)
  {
    hide SkipDigits, SkipZeros, NonzeroAhead, IntegerAt, DigitsValue, AllDigits, Compare, FirstDiff;
    ZeroRun(s, l, decimal);
    ZeroRun(t, r, decimal);
    NumbersDecide(s, l, t, r, secondary, decimal);
    var f, g := NumberAt(s, l, decimal).value.digits, NumberAt(t, r, decimal).value.digits;
    if |f| == |g| && FirstDiff(f, g) == 0 {
      FirstDiffZero(f, g);
    }
    if f == g {
      FirstDiffSelf(f);
    }
    FirstDiffHead(f, g);
  }

  // ---------- When DICT agrees with integer value ----------

  /**
   f and g are what the loop compares: of a number its digits without leading zeros, of
   zeros the character after them, which is no digit, and the digits after that.
   */
  predicate DictAgrees(f: seq<int>, g: seq<int>)
    requires f != [] && g != []
  {
    if IsDigit(f[0]) && IsDigit(g[0]) then true
    else if IsDigit(g[0]) then |f| < |g| || (|f| == |g| && f[0] < ZERO)
    else if IsDigit(f[0]) then |g| < |f| || (|f| == |g| && g[0] < ZERO)
    else f == g
  }

  lemma SignOfSwap(a: Number, b: Number)
    ensures Sign(NumberDiff(b, a)) == -Sign(NumberDiff(a, b))
  {
    NumberDiffSwap(a, b);
  }

  /**
   For all numbers at which DICT does not overrun: its digit loop gives the sign of
   comparing the integer values, 0 letting the comparison go on, if and only if
   DictAgrees; and what the whole comparison then gives.
   */
  lemma DictAgreesExactly(s: Text, l: nat, t: Text, r: nat, secondary: int)
    requires l < |s| && r < |t| && IsDigit(s[l]) && IsDigit(t[r])
    requires NumberAt(s, l, false).Some? && NumberAt(t, r, false).Some?
    ensures var a, b := NumberAt(s, l, false).value, NumberAt(t, r, false).value;
      var x, y := IntegerAt(s, l), IntegerAt(t, r);
      var c := Compare(s, l, t, r, secondary, false);
      var agrees := DictAgrees(a.digits, b.digits);
      && (Sign(NumberDiff(a, b)) == Sign(x - y) <==> agrees)
      && (x != y ==> c.Value? && (Sign(c.diff) == Sign(x - y) <==> agrees))
      && (x == y && agrees ==> c == Compare(s, a.end, t, b.end, FirstOf(secondary, a.zeros - b.zeros), false))
      && (x == y && !agrees ==> c.Value? && c.diff != 0)
  {
    hide NumberAt, NumberDiff, IntegerAt, DictAgrees, Compare;
    NumbersDecide(s, l, t, r, secondary, false);
    DictVerdict(s, l, t, r);
  }

  lemma DictVerdict(s: Text, l: nat, t: Text, r: nat)
    requires l < |s| && r < |t| && IsDigit(s[l]) && IsDigit(t[r])
    requires NumberAt(s, l, false).Some? && NumberAt(t, r, false).Some?
    ensures var a, b := NumberAt(s, l, false).value, NumberAt(t, r, false).value;
      var d, x, y := NumberDiff(a, b), IntegerAt(s, l), IntegerAt(t, r);
      && (Sign(d) == Sign(x - y) <==> DictAgrees(a.digits, b.digits))
      && (x != y ==> d != 0)
  {
    var a, b := NumberAt(s, l, false).value, NumberAt(t, r, false).value;
    NumberParts(s, l, false);
    NumberParts(t, r, false);
    hide NumberAt, SkipZeros, SkipDigits, IntegerAt, NonzeroAhead, AllDigits, DigitsValue;
    SignOfSwap(a, b);
    if NonzeroAhead(s, l) && NonzeroAhead(t, r) {
      RunsByValue(a.digits, b.digits);
    } else if NonzeroAhead(t, r) {
      StandInVerdict(a, b);
    } else if NonzeroAhead(s, l) {
      StandInVerdict(b, a);
    } else if a.digits == b.digits {
      FirstDiffSelf(a.digits);
    } else if |a.digits| == |b.digits| && FirstDiff(a.digits, b.digits) == 0 {
      FirstDiffZero(a.digits, b.digits);
    }
  }

  /** Both kinds of number, in one statement. */
  lemma NumberParts(s: Text, i: nat, decimal: bool)
    requires i < |s| && IsDigit(s[i]) && NumberAt(s, i, decimal).Some?
    ensures var n := NumberAt(s, i, decimal).value;
      && (!decimal ==> n.fraction == None)
      && (NonzeroAhead(s, i) ==>
          AllDigits(n.digits) && n.digits[0] != ZERO && DigitsValue(n.digits) == IntegerAt(s, i) > 0)
      && (NonzeroAhead(s, i) <==> IsDigit(n.digits[0]))
      && (!NonzeroAhead(s, i) ==> IntegerAt(s, i) == 0 && AllDigits(n.digits[1..]))
  {
    if NonzeroAhead(s, i) {
      NumberValue(s, i, decimal);
      DigitsValueBounds(NumberAt(s, i, decimal).value.digits);
    } else {
      ZeroRun(s, i, decimal);
    }
    hide SkipZeros, SkipDigits, IntegerAt, NonzeroAhead, DigitsValue;
  }

  // ---------- When DICTREAL agrees with real value ----------

  /** The digits after the point of the number at i, if there is a point right after its integer part. */
  function DecimalsAt(s: Text, i: nat): seq<int>
    requires i <= |s|
  {
    var p := SkipDigits(s, i);
    if At(s, p) == POINT then s[p + 1..SkipDigits(s, p + 1)] else []
  }

  function RealAt(s: Text, i: nat): real
    requires i <= |s|
  {
    IntegerAt(s, i) as real + FractionValue(DecimalsAt(s, i))
  }

  /** The order that treats numbers as reals, and the number of decimals after that. */
  function RealOrder(s: Text, l: nat, t: Text, r: nat): int
    requires l <= |s| && r <= |t|
  {
    if RealAt(s, l) != RealAt(t, r) then RealSign(RealAt(s, l) - RealAt(t, r))
    else Sign(|DecimalsAt(s, l)| - |DecimalsAt(t, r)|)
  }

  /**
   What a and b are compared as.  Two numbers that are not all zeros must not share their
   integer part when only one has a point; for zeros it depends on what follows them.
   */
  predicate DictrealAgrees(a: Number, b: Number)
    requires a.digits != [] && b.digits != []
  {
    var f, g := a.digits, b.digits;
    if IsDigit(f[0]) && IsDigit(g[0]) then f == g ==> a.fraction.Some? == b.fraction.Some?
    else if IsDigit(g[0]) then |f| < |g| || (|f| == |g| && f[0] < ZERO)
    else if IsDigit(f[0]) then |g| < |f| || (|f| == |g| && g[0] < ZERO)
    else if f[0] == POINT && g[0] == POINT then
      && (|f| < |g| ==> FirstDiff(f, g) <= 0)
      && (|g| < |f| ==> FirstDiff(f, g) >= 0)
      && (f == g ==> a.fraction == b.fraction)
    else if f[0] == POINT then |f| > 1 && (|g| < |f| || (|f| == |g| && g[0] < POINT))
    else if g[0] == POINT then |g| > 1 && (|f| < |g| || (|f| == |g| && f[0] < POINT))
    else f == g && a.fraction == b.fraction
  }

  lemma DecimalsOfNonzero(s: Text, i: nat)
    requires i < |s| && IsDigit(s[i]) && NonzeroAhead(s, i)
    ensures var n := NumberAt(s, i, true).value;
      FractionDigits(n) == DecimalsAt(s, i) && DigitFraction(n)
  {
    hide SkipDigits, SkipZeros, NonzeroAhead, IntegerAt, DigitsValue, DigitFraction, AllDigits;
    IntegerWithoutZeros(s, i);
    NumberHasDigitFraction(s, i, true);
  }

  lemma DecimalsAreDigits(s: Text, i: nat)
    requires i <= |s|
    ensures AllDigits(DecimalsAt(s, i))
  {
    hide SkipDigits;
  }

  lemma DecimalsOfZero(s: Text, i: nat)
    requires i < |s| && IsDigit(s[i]) && !NonzeroAhead(s, i) && NumberAt(s, i, true).Some?
    ensures var n := NumberAt(s, i, true).value;
      DecimalsAt(s, i) == if n.digits[0] == POINT then n.digits[1..] else []
  {
    hide SkipDigits, SkipZeros, NumberAt, NonzeroAhead, IntegerAt, DigitsValue, AllDigits;
    ZeroRun(s, i, true);
  }

  /** The point and the decimals of a number that is not all zeros, or that is. */
  lemma RealParts(s: Text, i: nat)
    requires i < |s| && IsDigit(s[i]) && NumberAt(s, i, true).Some?
    ensures var n := NumberAt(s, i, true).value;
      && AllDigits(DecimalsAt(s, i))
      && (NonzeroAhead(s, i) ==> FractionDigits(n) == DecimalsAt(s, i) && DigitFraction(n))
      && (!NonzeroAhead(s, i) ==> DecimalsAt(s, i) == if n.digits[0] == POINT then n.digits[1..] else [])
  {
    hide SkipDigits, SkipZeros, NumberAt, NonzeroAhead, IntegerAt, DigitsValue, AllDigits, DecimalsAt;
    DecimalsAreDigits(s, i);
    if NonzeroAhead(s, i) {
      DecimalsOfNonzero(s, i);
    } else {
      DecimalsOfZero(s, i);
    }
  }

  /** A number that is not all zeros is at least 1, and zeros with decimals are less than that. */
  lemma RealBounds(s: Text, i: nat)
    requires i < |s| && IsDigit(s[i]) && NumberAt(s, i, true).Some?
    ensures NonzeroAhead(s, i) ==> RealAt(s, i) == RealValue(NumberAt(s, i, true).value) >= 1.0
    ensures !NonzeroAhead(s, i) ==> RealAt(s, i) == FractionValue(DecimalsAt(s, i)) < 1.0
    ensures FractionValue(DecimalsAt(s, i)) >= 0.0
  {
    NumberParts(s, i, true);
    RealParts(s, i);
    hide NumberAt, NonzeroAhead, IntegerAt, DigitsValue, DecimalsAt;
    FractionValueBounds(DecimalsAt(s, i));
  }

  lemma NonzeroVerdict(a: Number, b: Number)
    requires AllDigits(a.digits) && a.digits != [] && a.digits[0] != ZERO && DigitFraction(a)
    requires AllDigits(b.digits) && b.digits != [] && b.digits[0] != ZERO && DigitFraction(b)
    ensures var x, y, decimals := RealValue(a), RealValue(b), |FractionDigits(a)| - |FractionDigits(b)|;
      Sign(NumberDiff(a, b)) == (if x != y then RealSign(x - y) else Sign(decimals)) <==> DictrealAgrees(a, b)
  {
    NumbersByRealValue(a, b);
    RunsByValue(a.digits, b.digits);
    FractionValueBounds(FractionDigits(a));
    FractionValueBounds(FractionDigits(b));
    EmptyValue();
    if |a.digits| == |b.digits| && FirstDiff(a.digits, b.digits) == 0 {
      FirstDiffZero(a.digits, b.digits);
    }
    hide NumberDiff, FractionValue, DigitsValue, RunDiff;
  }

  /** Of two fractions the shorter is at most the longer one exactly if no earlier decimal of it is greater. */
  lemma ShorterByCharacters(f: seq<int>, g: seq<int>)
    requires AllDigits(f) && AllDigits(g) && |f| < |g|
    ensures FirstDiff(f, g) <= 0 <==> FractionValue(f) <= FractionValue(g)
    ensures FirstDiff(g, f) == -FirstDiff(f, g)
  {
    FirstDiffSwap(f, g);
    FractionsByValue(f, g);
    FractionValueBounds(f);
    FractionValueBounds(g);
    hide FractionValue, FirstDiff;
  }

  lemma ZeroVerdict(a: Number, b: Number, f: seq<int>, g: seq<int>)
    requires a.digits != [] && !IsDigit(a.digits[0]) && AllDigits(a.digits[1..])
    requires b.digits != [] && !IsDigit(b.digits[0]) && AllDigits(b.digits[1..])
    requires f == if a.digits[0] == POINT then a.digits[1..] else []
    requires g == if b.digits[0] == POINT then b.digits[1..] else []
    ensures var x, y := FractionValue(f), FractionValue(g);
      Sign(NumberDiff(a, b)) == (if x != y then RealSign(x - y) else Sign(|f| - |g|)) <==> DictrealAgrees(a, b)
  {
    FractionsByValue(f, g);
    FractionValueBounds(f);
    FractionValueBounds(g);
    EmptyValue();
    TieExactly(a, b);
    FirstDiffHead(a.digits, b.digits);
    if |f| < |g| {
      ShorterByCharacters(f, g);
    } else if |g| < |f| {
      ShorterByCharacters(g, f);
    }
    hide FractionValue, FirstDiff;
  }

  lemma TieExactly(a: Number, b: Number)
    ensures RunDiff(a.digits, b.digits) == 0 <==> a.digits == b.digits
    ensures NumberDiff(a, b) == 0 <==> a.digits == b.digits && a.fraction == b.fraction
  {
    if |a.digits| == |b.digits| && FirstDiff(a.digits, b.digits) == 0 {
      FirstDiffZero(a.digits, b.digits);
    }
    FirstDiffSelf(a.digits);
    if NumberDiff(a, b) == 0 {
      NumberDiffZero(a, b);
    }
    if a.fraction.Some? {
      FirstDiffSelf(a.fraction.value);
    }
  }

  lemma FirstDiffHead(f: seq<int>, g: seq<int>)
    requires f != [] && g != []
    ensures FirstDiff(f, g) == if f[0] != g[0] then f[0] - g[0] else FirstDiff(f[1..], g[1..])
  {
  }

  /**
   For all numbers at which DICTREAL does not overrun: its loops give the order by real
   value and then number of decimals if and only if DictrealAgrees.
   */
  lemma DictrealAgreesExactly(s: Text, l: nat, t: Text, r: nat)
    requires l < |s| && r < |t| && IsDigit(s[l]) && IsDigit(t[r])
    requires NumberAt(s, l, true).Some? && NumberAt(t, r, true).Some?
    ensures var a, b := NumberAt(s, l, true).value, NumberAt(t, r, true).value;
      Sign(NumberDiff(a, b)) == RealOrder(s, l, t, r) <==> DictrealAgrees(a, b)
  {
    hide NumberAt, NumberDiff, SkipZeros, SkipDigits, NonzeroAhead, AllDigits;
    hide IntegerAt, DigitsValue, FractionValue, RealAt, DecimalsAt;
    var a, b := NumberAt(s, l, true).value, NumberAt(t, r, true).value;
    NumberParts(s, l, true);
    NumberParts(t, r, true);
    RealParts(s, l);
    RealParts(t, r);
    RealBounds(s, l);
    RealBounds(t, r);
    if NonzeroAhead(s, l) && NonzeroAhead(t, r) {
      NonzeroVerdict(a, b);
    } else if NonzeroAhead(t, r) {
      StandInVerdict(a, b);
    } else if NonzeroAhead(s, l) {
      SignOfSwap(a, b);
      StandInVerdict(b, a);
    } else {
      ZeroVerdict(a, b, DecimalsAt(s, l), DecimalsAt(t, r));
    }
  }

  lemma TieMeansSameReal(s: Text, l: nat, t: Text, r: nat)
    requires l < |s| && r < |t| && IsDigit(s[l]) && IsDigit(t[r])
    requires NumberAt(s, l, true).Some? && NumberAt(t, r, true).Some?
    requires NumberDiff(NumberAt(s, l, true).value, NumberAt(t, r, true).value) == 0
    ensures RealOrder(s, l, t, r) == 0
  {
    hide NumberAt, NumberDiff, SkipZeros, SkipDigits, NonzeroAhead, AllDigits;
    hide IntegerAt, DigitsValue, FractionValue, RealAt, DecimalsAt;
    TieExactly(NumberAt(s, l, true).value, NumberAt(t, r, true).value);
    NumberParts(s, l, true);
    NumberParts(t, r, true);
    RealParts(s, l);
    RealParts(t, r);
    RealBounds(s, l);
    RealBounds(t, r);
  }

  /** A difference d of two numbers that decides comparison c unless it is 0. */
  lemma Concluded(d: int, order: int, agrees: bool, c: Outcome)
    requires (Sign(d) == order <==> agrees) && (d == 0 ==> order == 0) && (d != 0 ==> c == Value(d))
    ensures order != 0 ==> c.Value? && (Sign(c.diff) == order <==> agrees)
    ensures order == 0 ==> (d == 0 <==> agrees)
    ensures order == 0 && !agrees ==> c.Value? && c.diff != 0
  {
  }

  /** What the whole comparison gives at two such numbers. */
  lemma DictrealOutcome(s: Text, l: nat, t: Text, r: nat, secondary: int)
    requires l < |s| && r < |t| && IsDigit(s[l]) && IsDigit(t[r])
    requires NumberAt(s, l, true).Some? && NumberAt(t, r, true).Some?
    ensures var a, b := NumberAt(s, l, true).value, NumberAt(t, r, true).value;
      var order := RealOrder(s, l, t, r);
      var c := Compare(s, l, t, r, secondary, true);
      var agrees := DictrealAgrees(a, b);
      && (order != 0 ==> c.Value? && (Sign(c.diff) == order <==> agrees))
      && (order == 0 && agrees ==> c == Compare(s, a.end, t, b.end, FirstOf(secondary, a.zeros - b.zeros), true))
      && (order == 0 && !agrees ==> c.Value? && c.diff != 0)
  {
    hide *;
    var a, b := NumberAt(s, l, true).value, NumberAt(t, r, true).value;
    NumbersDecide(s, l, t, r, secondary, true);
    DictrealAgreesExactly(s, l, t, r);
    var d, order := NumberDiff(a, b), RealOrder(s, l, t, r);
    if d == 0 {
      TieMeansSameReal(s, l, t, r);
    }
    Concluded(d, order, DictrealAgrees(a, b), Compare(s, l, t, r, secondary, true));
  }

  // ---------- Numbers that are sorted the wrong way round ----------

  /** The text 1.5 sorts before the text 0.5. */
  lemma OneBeforeZeroReal()
    ensures Less([49, 46, 53], [48, 46, 53], true)
  {
    var s: Text, t: Text := [49, 46, 53], [48, 46, 53];
    assert SkipZeros(t, 0) == 1 && SkipDigits(t, 2) == 3 && SkipDigits(s, 1) == 1;
  }

  /** The text a1b sorts before the text a0b, in both collations. */
  lemma OneBeforeZero(decimal: bool)
    ensures Less([97, 49, 98], [97, 48, 98], decimal)
  {
    var s: Text, t: Text := [97, 49, 98], [97, 48, 98];
    assert SkipZeros(s, 1) == 1 && SkipZeros(t, 1) == 2 && SkipDigits(s, 2) == 2 && SkipDigits(t, 3) == 3;
    assert Compare(s, 1, t, 1, 0, decimal).Value? && Compare(s, 1, t, 1, 0, decimal).diff < 0;
  }
}
