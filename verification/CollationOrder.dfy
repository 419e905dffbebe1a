/**
 DICT and DICTREAL as orders on texts: when they overrun a terminator, swapping the
 arguments, equality, and for which characters they are transitive.
 */
module CollationOrder {
  import opened Collation

  predicate Less(s: Text, t: Text, decimal: bool) {
    var c := Collate(s, t, decimal);
    c.Value? && c.diff < 0
  }

  // ---------- Staying inside the texts ----------

  /** No number in s is cut off by the terminator while its zeros are skipped. */
  predicate Tokenises(s: Text, i: nat, decimal: bool)
    requires i <= |s|
    decreases |s| - i
  {
    if i == |s| then true
    else if IsDigit(s[i]) then
      var n := NumberAt(s, i, decimal);
      n.Some? && Tokenises(s, n.value.end, decimal)
    else
      Tokenises(s, i + 1, decimal)
  }

  lemma {:induction false} CompareNeverOverruns(s: Text, l: nat, t: Text, r: nat, secondary: int, decimal: bool)
    requires l <= |s| && r <= |t| && Tokenises(s, l, decimal) && Tokenises(t, r, decimal)
    ensures Compare(s, l, t, r, secondary, decimal).Value?
    decreases |s| - l
  {
    hide NumberAt, NumberDiff;
    var x, y := At(s, l), At(t, r);
    if IsDigit(x) && IsDigit(y) {
      var a, b := NumberAt(s, l, decimal).value, NumberAt(t, r, decimal).value;
      CompareNeverOverruns(s, a.end, t, b.end, FirstOf(secondary, a.zeros - b.zeros), decimal);
    } else if CharDiff(x, y) == 0 && x != 0 {
      CompareNeverOverruns(s, l + 1, t, r + 1, FirstOf(secondary, CaseDiff(x, y)), decimal);
    }
  }

  lemma {:induction false} FirstDiffSelf(a: seq<int>)
    ensures FirstDiff(a, a) == 0
  {
    if a != [] {
      FirstDiffSelf(a[1..]);
    }
  }

  lemma NumberDiffSelf(a: Number)
    ensures NumberDiff(a, a) == 0
  {
    FirstDiffSelf(a.digits);
    if a.fraction.Some? {
      FirstDiffSelf(a.fraction.value);
    }
  }

  /** A text compared with itself gives 0, or overruns its terminator exactly when it does not tokenise. */
  lemma {:induction false} SelfComparison(s: Text, l: nat, decimal: bool)
    requires l <= |s|
    ensures Compare(s, l, s, l, 0, decimal) == if Tokenises(s, l, decimal) then Value(0) else Overrun
    decreases |s| - l
  {
    if l < |s| {
      if IsDigit(s[l]) {
        var n := NumberAt(s, l, decimal);
        if n.Some? {
          NumberDiffSelf(n.value);
          SelfComparison(s, n.value.end, decimal);
        }
      } else {
        SelfComparison(s, l + 1, decimal);
      }
    }
  }

  /** Among texts that tokenise no comparison overruns, and no other text can be compared with itself. */
  lemma OverrunExactly(s: Text, decimal: bool)
    ensures Tokenises(s, 0, decimal) <==>
      forall t: Text :: Tokenises(t, 0, decimal) || t == s ==> Collate(s, t, decimal).Value?
  {
    SelfComparison(s, 0, decimal);
    if Tokenises(s, 0, decimal) {
      forall t: Text | Tokenises(t, 0, decimal) || t == s ensures Collate(s, t, decimal).Value? {
        CompareNeverOverruns(s, 0, t, 0, 0, decimal);
      }
    } else {
      assert Collate(s, s, decimal).Overrun?;
    }
  }

  predicate RunStart(s: Text, k: nat) {
    k < |s| && IsDigit(s[k]) && (k == 0 || !IsDigit(s[k - 1]))
  }

  predicate NonzeroAhead(s: Text, k: nat)
    requires k <= |s|
  {
    IsDigit(At(s, SkipZeros(s, k)))
  }

  /** It is enough that every run of digits has a digit other than 0. */
  lemma {:induction false} NonzeroRunsTokenise(s: Text, i: nat, decimal: bool)
    requires i <= |s|
    requires forall k: nat :: RunStart(s, k) ==> NonzeroAhead(s, k)
    requires i == 0 || !IsDigit(s[i - 1]) || !IsDigit(At(s, i))
    ensures Tokenises(s, i, decimal)
    decreases |s| - i
  {
    if i < |s| {
      if IsDigit(s[i]) {
        assert RunStart(s, i);
        var n := NumberAt(s, i, decimal);
        assert n.Some?;
        NonzeroRunsTokenise(s, n.value.end, decimal);
      } else {
        NonzeroRunsTokenise(s, i + 1, decimal);
      }
    }
  }

  /** The text 0 compared with itself. */
  lemma LoneZeroOverruns()
    ensures Collate([48], [48], false) == Collate([48], [48], true) == Overrun
  {
  }

  // ---------- Swapping the arguments ----------

  function Negated(c: Outcome): Outcome {
    match c
    case Value(d) => Value(-d)
    case Overrun => Overrun
  }

  lemma {:induction false} FirstDiffSwap(a: seq<int>, b: seq<int>)
    ensures FirstDiff(b, a) == -FirstDiff(a, b)
  {
    if a != [] && b != [] {
      FirstDiffSwap(a[1..], b[1..]);
    }
  }

  lemma NumberDiffSwap(a: Number, b: Number)
    ensures NumberDiff(b, a) == -NumberDiff(a, b)
  {
    hide FirstDiff;
    FirstDiffSwap(a.digits, b.digits);
    if a.fraction.Some? && b.fraction.Some? {
      FirstDiffSwap(a.fraction.value, b.fraction.value);
    }
  }

  lemma CharSwap(x: int, y: int)
    ensures CharDiff(y, x) == -CharDiff(x, y) && CaseDiff(y, x) == -CaseDiff(x, y)
    ensures CharDiff(x, y) == 0 ==> (x == 0 <==> y == 0)
  {
  }

  lemma {:induction false} CompareSwap(s: Text, l: nat, t: Text, r: nat, secondary: int, decimal: bool)
    requires l <= |s| && r <= |t|
    ensures Compare(t, r, s, l, -secondary, decimal) == Negated(Compare(s, l, t, r, secondary, decimal))
    decreases |s| - l
  {
    hide NumberAt, NumberDiff, CharDiff, CaseDiff;
    var x, y := At(s, l), At(t, r);
    CharSwap(x, y);
    if IsDigit(x) && IsDigit(y) {
      var a, b := NumberAt(s, l, decimal), NumberAt(t, r, decimal);
      if a.Some? && b.Some? {
        NumberDiffSwap(a.value, b.value);
        CompareSwap(s, a.value.end, t, b.value.end, FirstOf(secondary, a.value.zeros - b.value.zeros), decimal);
      }
    } else if CharDiff(x, y) == 0 && x != 0 {
      CompareSwap(s, l + 1, t, r + 1, FirstOf(secondary, CaseDiff(x, y)), decimal);
    }
  }

  /** For all texts: the comparators return the exact negative when their arguments are swapped. */
  lemma CollateSwap(s: Text, t: Text, decimal: bool)
    ensures Collate(t, s, decimal) == Negated(Collate(s, t, decimal))
  {
    CompareSwap(s, 0, t, 0, 0, decimal);
  }

  // ---------- Equality ----------

  lemma {:induction false} FirstDiffZero(a: seq<int>, b: seq<int>)
    requires |a| == |b| && FirstDiff(a, b) == 0
    ensures a == b
  {
    if a != [] {
      FirstDiffZero(a[1..], b[1..]);
      assert a == [a[0]] + a[1..] && b == [b[0]] + b[1..];
    }
  }

  lemma NumberDiffZero(a: Number, b: Number)
    requires NumberDiff(a, b) == 0
    ensures a.digits == b.digits && a.fraction == b.fraction
  {
    FirstDiffZero(a.digits, b.digits);
    if a.fraction.Some? {
      FirstDiffZero(a.fraction.value, b.fraction.value);
    }
  }

  function NumberText(n: Number): seq<int> {
    seq(n.zeros, _ => ZERO) + n.digits + if n.fraction.Some? then [POINT] + n.fraction.value else []
  }

  lemma SameNumberText(a: Number, b: Number)
    requires a.zeros == b.zeros && a.digits == b.digits && a.fraction == b.fraction
    ensures NumberText(a) == NumberText(b)
  {
  }

  lemma NumberTextAt(s: Text, i: nat, decimal: bool)
    requires i <= |s| && NumberAt(s, i, decimal).Some?
    ensures var n := NumberAt(s, i, decimal).value; s[i..n.end] == NumberText(n)
  {
    hide SkipDigits, SkipZeros;
    var n := NumberAt(s, i, decimal).value;
    var z := SkipZeros(s, i);
    var e := z + |n.digits|;
    assert s[i..z] == seq(n.zeros, _ => ZERO) && s[z..e] == n.digits;
    assert s[i..n.end] == s[i..z] + s[z..e] + s[e..n.end];
    if n.fraction.Some? {
      assert s[e..n.end] == [s[e]] + s[e + 1..n.end];
    }
  }

  lemma SameCharacter(x: int, y: int)
    requires CharDiff(x, y) == 0 && CaseDiff(x, y) == 0
    ensures x == y
  {
  }

  lemma {:induction false} ZeroMeansSameRest(s: Text, l: nat, t: Text, r: nat, secondary: int, decimal: bool)
    requires l <= |s| && r <= |t| && Compare(s, l, t, r, secondary, decimal) == Value(0)
    ensures secondary == 0 && s[l..] == t[r..]
    decreases |s| - l
  {
    hide NumberAt, NumberDiff, NumberText, CharDiff, CaseDiff;
    var x, y := At(s, l), At(t, r);
    CharSwap(x, y);
    if IsDigit(x) && IsDigit(y) {
      var a, b := NumberAt(s, l, decimal).value, NumberAt(t, r, decimal).value;
      ZeroMeansSameRest(s, a.end, t, b.end, FirstOf(secondary, a.zeros - b.zeros), decimal);
      NumberDiffZero(a, b);
      NumberTextAt(s, l, decimal);
      NumberTextAt(t, r, decimal);
      assert NumberText(a) == NumberText(b) by { SameNumberText(a, b); }
      assert s[l..] == s[l..a.end] + s[a.end..] && t[r..] == t[r..b.end] + t[b.end..];
    } else if x != 0 {
      ZeroMeansSameRest(s, l + 1, t, r + 1, FirstOf(secondary, CaseDiff(x, y)), decimal);
      SameCharacter(x, y);
      assert s[l..] == [s[l]] + s[l + 1..] && t[r..] == [t[r]] + t[r + 1..];
    }
  }

  /** For all texts: only identical texts compare equal, and they do unless they overrun. */
  lemma EqualExactly(s: Text, t: Text, decimal: bool)
    ensures Collate(s, t, decimal) == Value(0) <==> s == t && Tokenises(s, 0, decimal)
  {
    SelfComparison(s, 0, decimal);
    if Collate(s, t, decimal) == Value(0) {
      ZeroMeansSameRest(s, 0, t, 0, 0, decimal);
      assert s[0..] == s && t[0..] == t;
    }
  }
}
