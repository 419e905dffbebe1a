/**
 Sort keys for DICT and DICTREAL, and from them transitivity: both comparators order
 texts by a primary key and then by a secondary one, as long as one ranking of the
 characters agrees with every pairwise comparison they make.
 */
module CollationKeys {
  import opened Common
  import opened Collation
  import opened CollationOrder

  // ---------- Lexicographic order on integer sequences ----------

  function Lex(a: seq<int>, b: seq<int>): int {
    if a == [] && b == [] then 0
    else if a == [] then -1
    else if b == [] then 1
    else if a[0] != b[0] then Sign(a[0] - b[0])
    else Lex(a[1..], b[1..])
  }

  lemma {:induction false} LexSwap(a: seq<int>, b: seq<int>)
    ensures Lex(b, a) == -Lex(a, b)
  {
    if a != [] && b != [] {
      LexSwap(a[1..], b[1..]);
    }
  }

  lemma {:induction false} LexZero(a: seq<int>, b: seq<int>)
    ensures Lex(a, b) == 0 <==> a == b
  {
    if a != [] && b != [] {
      LexZero(a[1..], b[1..]);
      assert a == [a[0]] + a[1..] && b == [b[0]] + b[1..];
    }
  }

  lemma {:induction false} LexTransitive(a: seq<int>, b: seq<int>, c: seq<int>)
    requires Lex(a, b) <= 0 && Lex(b, c) <= 0
    ensures Lex(a, c) <= 0
    ensures Lex(a, b) < 0 || Lex(b, c) < 0 ==> Lex(a, c) < 0
  {
    if a != [] && b != [] && c != [] && a[0] == b[0] == c[0] {
      LexTransitive(a[1..], b[1..], c[1..]);
    }
  }

  lemma LexCons(x: int, u: seq<int>, y: int, v: seq<int>)
    ensures Lex([x] + u, [y] + v) == if x != y then Sign(x - y) else Lex(u, v)
  {
    assert ([x] + u)[1..] == u && ([y] + v)[1..] == v;
  }

  lemma {:induction false} LexBlocks(a: seq<int>, u: seq<int>, b: seq<int>, v: seq<int>)
    requires |a| == |b|
    ensures Lex(a + u, b + v) == if FirstDiff(a, b) != 0 then Sign(FirstDiff(a, b)) else Lex(u, v)
  {
    if a == [] {
      assert a + u == u && b + v == v;
    } else {
      LexBlocks(a[1..], u, b[1..], v);
      assert a + u == [a[0]] + (a[1..] + u) && b + v == [b[0]] + (b[1..] + v);
      LexCons(a[0], a[1..] + u, b[0], b[1..] + v);
    }
  }

  // ---------- The key of a number ----------

  const STOP := -1

  function FractionKey(fraction: Option<seq<int>>, rest: seq<int>): seq<int> {
    match fraction
    case None => [1] + rest
    case Some(f) => [0] + (f + ([STOP] + rest))
  }

  function NumberKey(n: Number, rest: seq<int>): seq<int> {
    [ZERO] + ([|n.digits|] + (n.digits + FractionKey(n.fraction, rest)))
  }

  predicate AllDigits(f: seq<int>) {
    forall i :: 0 <= i < |f| ==> IsDigit(f[i])
  }

  lemma {:induction false} FractionOrder(f: seq<int>, u: seq<int>, g: seq<int>, v: seq<int>)
    requires AllDigits(f) && AllDigits(g)
    ensures Lex(f + ([STOP] + u), g + ([STOP] + v))
         == if FractionDiff(f, g) != 0 then Sign(FractionDiff(f, g)) else Lex(u, v)
  {
    var x, y := [STOP] + u, [STOP] + v;
    LexCons(STOP, u, STOP, v);
    if f == [] {
      assert f + x == x;
      if g == [] {
        assert g + y == y;
      } else {
        assert g + y == [g[0]] + (g[1..] + y);
        LexCons(STOP, u, g[0], g[1..] + y);
      }
    } else if g == [] {
      assert g + y == y && f + x == [f[0]] + (f[1..] + x);
      LexCons(f[0], f[1..] + x, STOP, v);
    } else {
      assert f + x == [f[0]] + (f[1..] + x) && g + y == [g[0]] + (g[1..] + y);
      LexCons(f[0], f[1..] + x, g[0], g[1..] + y);
      FractionOrder(f[1..], u, g[1..], v);
    }
  }

  predicate DigitFraction(n: Number) {
    n.fraction.Some? ==> AllDigits(n.fraction.value)
  }

  lemma FractionKeyOrder(a: Number, u: seq<int>, b: Number, v: seq<int>)
    requires DigitFraction(a) && DigitFraction(b) && RunDiff(a.digits, b.digits) == 0
    ensures Lex(FractionKey(a.fraction, u), FractionKey(b.fraction, v))
         == if NumberDiff(a, b) != 0 then Sign(NumberDiff(a, b)) else Lex(u, v)
  {
    hide FractionDiff;
    match (a.fraction, b.fraction) {
      case (Some(f), Some(g)) =>
        FractionOrder(f, u, g, v);
        LexCons(0, f + ([STOP] + u), 0, g + ([STOP] + v));
      case (Some(f), None) =>
        LexCons(0, f + ([STOP] + u), 1, v);
      case (None, Some(g)) =>
        LexCons(1, u, 0, g + ([STOP] + v));
      case (None, None) =>
        LexCons(1, u, 1, v);
    }
  }

  lemma NumberKeyOrder(a: Number, u: seq<int>, b: Number, v: seq<int>)
    requires DigitFraction(a) && DigitFraction(b)
    ensures Lex(NumberKey(a, u), NumberKey(b, v))
         == if NumberDiff(a, b) != 0 then Sign(NumberDiff(a, b)) else Lex(u, v)
  {
    hide FirstDiff, FractionKey, FractionDiff;
    var x, y := FractionKey(a.fraction, u), FractionKey(b.fraction, v);
    LexCons(ZERO, [|a.digits|] + (a.digits + x), ZERO, [|b.digits|] + (b.digits + y));
    LexCons(|a.digits|, a.digits + x, |b.digits|, b.digits + y);
    if |a.digits| == |b.digits| {
      LexBlocks(a.digits, x, b.digits, y);
      if FirstDiff(a.digits, b.digits) == 0 {
        FractionKeyOrder(a, u, b, v);
      }
    }
  }

  // ---------- The keys of a text ----------

  /** A rank for characters: digits together, letters by their lower case when folded. */
  function Rank(c: int, folded: bool): int {
    if IsDigit(c) then ZERO else if folded then ToLower(c) else c
  }

  predicate RanksAgree(x: int, y: int, folded: bool) {
    (IsDigit(x) && IsDigit(y)) || Sign(CharDiff(x, y)) == Sign(Rank(x, folded) - Rank(y, folded))
  }

  /** The ranking agrees with every comparison between these characters and the terminator. */
  ghost predicate Coherent(chars: set<Char>, folded: bool) {
    forall x, y :: (x == 0 || x in chars) && (y == 0 || y in chars) ==> RanksAgree(x, y, folded)
  }

  ghost predicate Over(s: Text, chars: set<Char>) {
    forall i :: 0 <= i < |s| ==> s[i] in chars
  }

  function PrimaryKey(s: Text, i: nat, decimal: bool, folded: bool): seq<int>
    requires i <= |s|
    decreases |s| - i
  {
    if i == |s| then [0]
    else if IsDigit(s[i]) then
      match NumberAt(s, i, decimal)
      case None => []
      case Some(n) => NumberKey(n, PrimaryKey(s, n.end, decimal, folded))
    else
      [Rank(s[i], folded)] + PrimaryKey(s, i + 1, decimal, folded)
  }

  function SecondaryKey(s: Text, i: nat, decimal: bool): seq<int>
    requires i <= |s|
    decreases |s| - i
  {
    if i == |s| then []
    else if IsDigit(s[i]) then
      match NumberAt(s, i, decimal)
      case None => []
      case Some(n) => [n.zeros] + SecondaryKey(s, n.end, decimal)
    else
      [if IsLower(s[i]) then 1 else 0] + SecondaryKey(s, i + 1, decimal)
  }

  function KeyOrder(s: Text, l: nat, t: Text, r: nat, secondary: int, decimal: bool, folded: bool): int
    requires l <= |s| && r <= |t|
  {
    var p := Lex(PrimaryKey(s, l, decimal, folded), PrimaryKey(t, r, decimal, folded));
    if p != 0 then p
    else if secondary != 0 then Sign(secondary)
    else Lex(SecondaryKey(s, l, decimal), SecondaryKey(t, r, decimal))
  }

  lemma NumberHasDigitFraction(s: Text, i: nat, decimal: bool)
    requires i <= |s| && NumberAt(s, i, decimal).Some?
    ensures DigitFraction(NumberAt(s, i, decimal).value)
  {
  }

  lemma PrimaryKeyHead(s: Text, i: nat, decimal: bool, folded: bool)
    requires i <= |s| && Tokenises(s, i, decimal)
    ensures var k := PrimaryKey(s, i, decimal, folded); k != [] && k[0] == Rank(At(s, i), folded)
  {
    hide NumberAt, FractionKey;
  }

  lemma {:induction false} CompareByKeys(
      s: Text, l: nat, t: Text, r: nat, secondary: int, decimal: bool, folded: bool, chars: set<Char>)
    requires l <= |s| && r <= |t| && Tokenises(s, l, decimal) && Tokenises(t, r, decimal)
    requires Coherent(chars, folded) && Over(s, chars) && Over(t, chars)
    ensures var c := Compare(s, l, t, r, secondary, decimal);
      c.Value? && Sign(c.diff) == KeyOrder(s, l, t, r, secondary, decimal, folded)
    decreases |s| - l
  {
    hide NumberAt, NumberDiff, NumberKey, Lex;
    var x, y := At(s, l), At(t, r);
    if IsDigit(x) && IsDigit(y) {
      hide CharDiff, CaseDiff, Rank;
      var a, b := NumberAt(s, l, decimal).value, NumberAt(t, r, decimal).value;
      var zeros := a.zeros - b.zeros;
      CompareByKeys(s, a.end, t, b.end, FirstOf(secondary, zeros), decimal, folded, chars);
      NumberHasDigitFraction(s, l, decimal);
      NumberHasDigitFraction(t, r, decimal);
      NumberKeyOrder(a, PrimaryKey(s, a.end, decimal, folded), b, PrimaryKey(t, b.end, decimal, folded));
      LexCons(a.zeros, SecondaryKey(s, a.end, decimal), b.zeros, SecondaryKey(t, b.end, decimal));
    } else if CharDiff(x, y) != 0 {
      assert RanksAgree(x, y, folded);
      DifferentHeads(s, l, t, r, decimal, folded);
    } else if x == 0 {
      assert Lex([0], [0]) == 0 && Lex([], []) == 0 by { LexZero([0], [0]); LexZero([], []); }
    } else {
      assert RanksAgree(x, y, folded);
      CompareByKeys(s, l + 1, t, r + 1, FirstOf(secondary, CaseDiff(x, y)), decimal, folded, chars);
      var a, b := PrimaryKey(s, l + 1, decimal, folded), PrimaryKey(t, r + 1, decimal, folded);
      LexCons(Rank(x, folded), a, Rank(y, folded), b);
      LexCons(if IsLower(x) then 1 else 0, SecondaryKey(s, l + 1, decimal),
              if IsLower(y) then 1 else 0, SecondaryKey(t, r + 1, decimal));
    }
  }

  lemma DifferentHeads(s: Text, l: nat, t: Text, r: nat, decimal: bool, folded: bool)
    requires l <= |s| && r <= |t| && Tokenises(s, l, decimal) && Tokenises(t, r, decimal)
    requires Rank(At(s, l), folded) != Rank(At(t, r), folded)
    ensures Lex(PrimaryKey(s, l, decimal, folded), PrimaryKey(t, r, decimal, folded))
         == Sign(Rank(At(s, l), folded) - Rank(At(t, r), folded))
  {
    hide PrimaryKey;
    PrimaryKeyHead(s, l, decimal, folded);
    PrimaryKeyHead(t, r, decimal, folded);
  }

  // ---------- For which characters the comparators are transitive ----------

  /** One of the six characters between Z and a, and two letters that fold the wrong way round it. */
  predicate Clash(o: int, u: int, l: int) {
    90 < o < 97 && IsUpper(u) && IsLower(l) && l <= ToLower(u)
  }

  ghost predicate ClashFree(chars: set<Char>) {
    forall o, u, l :: o in chars && u in chars && l in chars ==> !Clash(o, u, l)
  }

  ghost predicate Transitive(chars: set<Char>, decimal: bool) {
    forall s: Text, t: Text, u: Text ::
      && Over(s, chars) && Over(t, chars) && Over(u, chars)
      && Tokenises(s, 0, decimal) && Tokenises(t, 0, decimal) && Tokenises(u, 0, decimal)
      && Less(s, t, decimal) && Less(t, u, decimal)
      ==> Less(s, u, decimal)
  }

  lemma ClashFreeIsCoherent(chars: set<Char>) returns (folded: bool)
    requires ClashFree(chars)
    ensures Coherent(chars, folded)
  {
    folded := forall o :: o in chars ==> !(90 < o < 97);
    if !folded {
      var o :| o in chars && 90 < o < 97;
      forall x, y | (x == 0 || x in chars) && (y == 0 || y in chars) ensures RanksAgree(x, y, false) {
        if IsUpper(x) && IsLower(y) { assert !Clash(o, x, y); }
        if IsUpper(y) && IsLower(x) { assert !Clash(o, y, x); }
      }
    }
  }

  lemma CollateByKeys(s: Text, t: Text, decimal: bool, folded: bool, chars: set<Char>)
    requires Tokenises(s, 0, decimal) && Tokenises(t, 0, decimal)
    requires Coherent(chars, folded) && Over(s, chars) && Over(t, chars)
    ensures var p := Lex(PrimaryKey(s, 0, decimal, folded), PrimaryKey(t, 0, decimal, folded));
      Less(s, t, decimal) <==> p < 0 || (p == 0 && Lex(SecondaryKey(s, 0, decimal), SecondaryKey(t, 0, decimal)) < 0)
  {
    CompareByKeys(s, 0, t, 0, 0, decimal, folded, chars);
  }

  lemma ClashFreeIsTransitive(s: Text, t: Text, u: Text, chars: set<Char>, decimal: bool)
    requires ClashFree(chars) && Over(s, chars) && Over(t, chars) && Over(u, chars)
    requires Tokenises(s, 0, decimal) && Tokenises(t, 0, decimal) && Tokenises(u, 0, decimal)
    requires Less(s, t, decimal) && Less(t, u, decimal)
    ensures Less(s, u, decimal)
  {
    hide Less, Tokenises, PrimaryKey, SecondaryKey, Lex, Coherent, ClashFree, Over;
    var folded := ClashFreeIsCoherent(chars);
    CollateByKeys(s, t, decimal, folded, chars);
    CollateByKeys(t, u, decimal, folded, chars);
    CollateByKeys(s, u, decimal, folded, chars);
    var a, b := PrimaryKey(s, 0, decimal, folded), PrimaryKey(t, 0, decimal, folded);
    var c := PrimaryKey(u, 0, decimal, folded);
    LexTransitive(a, b, c);
    LexZero(a, b);
    LexZero(b, c);
    LexZero(a, c);
    if a == b == c {
      LexTransitive(SecondaryKey(s, 0, decimal), SecondaryKey(t, 0, decimal), SecondaryKey(u, 0, decimal));
    }
  }

  /** u o < o < l, but u o > l. */
  lemma ClashBreaksTransitivity(o: Char, u: Char, l: Char, decimal: bool)
    requires Clash(o, u, l)
    ensures Less([u, o], [o], decimal) && Less([o], [l], decimal) && !Less([u, o], [l], decimal)
    ensures Tokenises([u, o], 0, decimal) && Tokenises([o], 0, decimal) && Tokenises([l], 0, decimal)
  {
    hide NumberAt, NumberDiff;
    var s, t: Text := [u, o], [l];
    assert At(s, 0) == u && At(s, 1) == o && At(t, 0) == l && At(t, 1) == 0;
    if ToLower(u) == l {
      assert Compare(s, 1, t, 1, -1, decimal) == Value(o);
    }
    assert Tokenises(s, 1, decimal);
  }

  /** Over a set of characters both collations are transitive if and only if the set is free of clashes. */
  lemma TransitiveExactly(chars: set<Char>, decimal: bool)
    ensures Transitive(chars, decimal) <==> ClashFree(chars)
  {
    hide Tokenises, Less;
    if ClashFree(chars) {
      forall s: Text, t: Text, u: Text |
        && Over(s, chars) && Over(t, chars) && Over(u, chars)
        && Tokenises(s, 0, decimal) && Tokenises(t, 0, decimal) && Tokenises(u, 0, decimal)
        && Less(s, t, decimal) && Less(t, u, decimal)
        ensures Less(s, u, decimal)
      {
        ClashFreeIsTransitive(s, t, u, chars, decimal);
      }
    } else {
      var o, u, l :| o in chars && u in chars && l in chars && Clash(o, u, l);
      ClashBreaksTransitivity(o, u, l, decimal);
      assert Over([u, o], chars) && Over([o], chars) && Over([l], chars);
    }
  }

  /** For all texts that tokenise: exactly one of less, identical, greater. */
  lemma TotalOrder(s: Text, t: Text, decimal: bool)
    requires Tokenises(s, 0, decimal) && Tokenises(t, 0, decimal)
    ensures Collate(s, t, decimal).Value?
    ensures s == t ==> !Less(s, t, decimal) && !Less(t, s, decimal)
    ensures s != t ==> Less(s, t, decimal) != Less(t, s, decimal)
  {
    hide Compare, Tokenises, Collate;
    OverrunExactly(s, decimal);
    CollateSwap(s, t, decimal);
    EqualExactly(s, t, decimal);
  }

  /** Z < _ < a < Z */
  lemma UnderscoreCycle(decimal: bool)
    ensures Less([90], [95], decimal) && Less([95], [97], decimal) && Less([97], [90], decimal)
  {
  }
}
