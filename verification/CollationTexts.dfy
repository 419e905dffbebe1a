/**
 DICT and DICTREAL in the reader's own terms: texts without digits are ordered by the
 alphabet and only then by case, and numerals by value and only then by leading zeros.
 */
module CollationTexts {
  import opened Common
  import opened Collation
  import opened CollationOrder
  import opened CollationKeys
  import opened CollationNumbers

  // ---------- Texts without digits ----------

  predicate Letter(c: int) {
    65 <= c <= 90 || 97 <= c <= 122
  }

  /** The position of a letter in the alphabet. */
  function Alphabet(c: int): int
    requires Letter(c)
  {
    if c <= 90 then c - 65 else c - 97
  }

  predicate SameLetter(x: int, y: int) {
    x == y || (Letter(x) && Letter(y) && Alphabet(x) == Alphabet(y))
  }

  /** Letters differ by alphabet and others by code; the end of a text has code 0. */
  function Difference(x: int, y: int): int {
    if Letter(x) && Letter(y) then Alphabet(x) - Alphabet(y) else x - y
  }

  predicate DigitFree(s: Text) {
    forall i :: 0 <= i < |s| ==> !(48 <= s[i] <= 57)
  }

  /** Both texts have the same letters and other characters from l up to k, and are identical up to m. */
  predicate AgreeUpTo(s: Text, t: Text, l: nat, m: nat, k: nat) {
    && l <= m <= k <= |s| && k <= |t|
    && (forall j :: l <= j < k ==> SameLetter(s[j], t[j]))
    && (forall j :: l <= j < m ==> s[j] == t[j])
  }

  lemma {:induction false} CompareDigitFree(
      s: Text, t: Text, l: nat, m: nat, k: nat, secondary: int, decimal: bool)
    requires DigitFree(s) && DigitFree(t) && AgreeUpTo(s, t, l, m, k)
    ensures var c := Compare(s, l, t, l, secondary, decimal);
      && (k < |s| && k < |t| && !SameLetter(s[k], t[k]) ==> c == Value(Difference(s[k], t[k])))
      && (k == |s| < |t| ==> c == Value(Difference(0, t[k])))
      && (k == |t| < |s| ==> c == Value(Difference(s[k], 0)))
      && (k == |s| == |t| && (m == k || secondary != 0) ==> c == Value(secondary))
      && (k == |s| == |t| && m < k && s[m] != t[m] && secondary == 0 ==> c == Value(if s[m] < t[m] then -1 else 1))
    decreases k - l
  {
    hide NumberAt, NumberDiff;
    if l < k {
      var next := FirstOf(secondary, CaseDiff(s[l], t[l]));
      assert Compare(s, l, t, l, secondary, decimal) == Compare(s, l + 1, t, l + 1, next, decimal);
      CompareDigitFree(s, t, l + 1, if l < m then m else l + 1, k, next, decimal);
    }
  }

  /**
   Two texts without digits that have the same letters, in whatever case, and the same
   other characters up to k.  If they differ at k, the positions in the alphabet decide
   between two letters, and otherwise the character codes.  If they are equally long they
   are equal, or the first difference of case decides, capitals first.
   */
  lemma TextsByAlphabet(s: Text, t: Text, k: nat, decimal: bool)
    requires DigitFree(s) && DigitFree(t) && AgreeUpTo(s, t, 0, 0, k)
    ensures var c := Collate(s, t, decimal);
      && (k < |s| && k < |t| && !SameLetter(s[k], t[k]) ==> c == Value(Difference(s[k], t[k])))
      && (k == |s| < |t| ==> c == Value(Difference(0, t[k])))
      && (k == |t| < |s| ==> c == Value(Difference(s[k], 0)))
      && (s == t ==> c == Value(0))
    ensures forall m :: 0 <= m < k == |s| == |t| && s[..m] == t[..m] && s[m] != t[m] ==>
      Collate(s, t, decimal) == Value(if s[m] < t[m] then -1 else 1)
  {
    hide Compare, DigitFree;
    CompareDigitFree(s, t, 0, 0, k, 0, decimal);
    if s == t {
      CompareDigitFree(s, t, 0, |s|, |s|, 0, decimal);
    }
    forall m | 0 <= m < k == |s| == |t| && s[..m] == t[..m] && s[m] != t[m]
      ensures Collate(s, t, decimal) == Value(if s[m] < t[m] then -1 else 1)
    {
      assert forall j :: 0 <= j < m ==> s[j] == s[..m][j] == t[..m][j] == t[j];
      CompareDigitFree(s, t, 0, m, k, 0, decimal);
    }
  }

  /** For instance two letters, one a capital. */
  lemma CapitalAgainstSmall(i: nat, j: nat, decimal: bool)
    requires i < 26 && j < 26
    ensures Collate([65 + i], [97 + j], decimal) == Value(if i != j then i - j else -1)
  {
    TextsByAlphabet([65 + i], [97 + j], if i == j then 1 else 0, decimal);
  }

  // ---------- Numerals ----------

  /** zeros times the digit 0 and then another digit, followed by any digits. */
  predicate Numeral(s: Text, zeros: nat) {
    && zeros < |s| && s[zeros] != 48
    && (forall i :: 0 <= i < zeros ==> s[i] == 48)
    && (forall i :: 0 <= i < |s| ==> 48 <= s[i] <= 57)
  }

  lemma NumeralParts(s: Text, zeros: nat, decimal: bool)
    requires Numeral(s, zeros)
    ensures NumberAt(s, 0, decimal).Some? && NonzeroAhead(s, 0)
    ensures var n := NumberAt(s, 0, decimal).value; n.zeros == zeros && n.end == |s| && n.fraction == None
    ensures IntegerAt(s, 0) == DigitsValue(s)
  {
    assert SkipZeros(s, 0) == zeros && SkipDigits(s, 0) == |s| && SkipDigits(s, zeros + 1) == |s|;
    assert s[0..|s|] == s;
    hide SkipZeros, SkipDigits, DigitsValue;
  }

  lemma BothEnd(s: Text, t: Text, secondary: int, decimal: bool)
    ensures Compare(s, |s|, t, |t|, secondary, decimal) == Value(secondary)
  {
  }

  /** Numerals are ordered by value; of the same number the one with more leading zeros is greater. */
  lemma NumeralsByValue(s: Text, i: nat, t: Text, j: nat, decimal: bool)
    requires Numeral(s, i) && Numeral(t, j)
    ensures var c := Collate(s, t, decimal);
      && c.Value?
      && (DigitsValue(s) < DigitsValue(t) ==> c.diff < 0)
      && (DigitsValue(s) > DigitsValue(t) ==> c.diff > 0)
      && (DigitsValue(s) == DigitsValue(t) ==> c.diff == i - j)
  {
    NumeralParts(s, i, decimal);
    NumeralParts(t, j, decimal);
    NumberValue(s, 0, decimal);
    NumberValue(t, 0, decimal);
    hide NumberAt, DigitsValue, IntegerAt, AllDigits, NonzeroAhead, RunDiff, Compare;
    var a, b := NumberAt(s, 0, decimal).value, NumberAt(t, 0, decimal).value;
    RunsByValue(a.digits, b.digits);
    NumbersDecide(s, 0, t, 0, 0, decimal);
    BothEnd(s, t, i - j, decimal);
  }
}
