// strtod on the bytes parse_number hands it: a decimal number with an optional fraction and exponent.
module Strtod {
  import opened Sequences
  import opened Octets
  import opened DecimalText

  const PLUS: Byte := 43
  const MINUS: Byte := 45
  const POINT: Byte := 46

  predicate IsDigit(b: Byte) { 48 <= b <= 57 }

  predicate IsSign(b: Byte) { b == PLUS || b == MINUS }

  predicate IsExponent(b: Byte) { b == 69 || b == 101 }

  function DigitsEnd(t: Bytes, i: nat): (r: nat)
    requires i <= |t|
    ensures i <= r <= |t|
    decreases |t| - i
  {
    if i < |t| && IsDigit(t[i]) then DigitsEnd(t, i + 1) else i
  }

  /** Behind a sign at `i`, if there is one. */
  function SignEnd(t: Bytes, i: nat): (r: nat)
    requires i <= |t|
    ensures i <= r <= |t|
  {
    if i < |t| && IsSign(t[i]) then i + 1 else i
  }

  function IntegerEnd(t: Bytes): (r: nat)
    ensures SignEnd(t, 0) <= r <= |t|
  {
    DigitsEnd(t, SignEnd(t, 0))
  }

  function FractionEnd(t: Bytes): (r: nat)
    ensures IntegerEnd(t) <= r <= |t|
  {
    var i := IntegerEnd(t);
    if i < |t| && t[i] == POINT then DigitsEnd(t, i + 1) else i
  }

  /** There is a digit before or behind the point. */
  predicate HasDigits(t: Bytes) {
    IntegerEnd(t) > SignEnd(t, 0) || FractionEnd(t) > IntegerEnd(t) + 1
  }

  /** Where the exponent's digits begin; the end of the fraction if there is no exponent. */
  function ExponentStart(t: Bytes): (r: nat)
    ensures FractionEnd(t) <= r <= |t|
  {
    var f := FractionEnd(t);
    if f >= |t| || !IsExponent(t[f]) then f
    else
      var g := SignEnd(t, f + 1);
      if g < |t| && IsDigit(t[g]) then g else f
  }

  /** `endptr`: how many bytes the conversion takes, none if there is no number. */
  function NumberEnd(t: Bytes): (r: nat)
    ensures r <= |t|
  {
    if !HasDigits(t) then 0
    else if ExponentStart(t) > FractionEnd(t) then DigitsEnd(t, ExponentStart(t)) else FractionEnd(t)
  }

  // ----- the value, cut off behind the point -----

  /** The digits from `i` to `end` behind those that make up `n`. */
  function RunValue(t: Bytes, i: nat, end: nat, n: int): int
    requires end <= |t|
    decreases end - i
  {
    if i >= end then n else RunValue(t, i + 1, end, 10 * n + (t[i] as int - 48))
  }

  /** The digits before and behind the point, without the point. */
  function Mantissa(t: Bytes): int {
    RunValue(t, IntegerEnd(t) + 1, FractionEnd(t), RunValue(t, SignEnd(t, 0), IntegerEnd(t), 0))
  }

  /** The power of ten the mantissa is to be multiplied by. */
  function Exponent(t: Bytes): int {
    var f, x := FractionEnd(t), ExponentStart(t);
    var e := if x == f then 0 else RunValue(t, x, DigitsEnd(t, x), 0);
    (if x > f && t[x - 1] == MINUS then -e else e) - (if f > IntegerEnd(t) then f - IntegerEnd(t) - 1 else 0)
  }

  /** The number without its fraction, as the conversion to an integer leaves it. */
  function WholePart(t: Bytes): int {
    var whole := Scaled(Mantissa(t), Exponent(t));
    if t != [] && t[0] == MINUS then -whole else whole
  }

  /** m * 10^k without its fraction. */
  function Scaled(m: int, k: int): int
    decreases if k >= 0 then k else -k
  {
    if k > 0 then Scaled(10 * m, k - 1) else if k < 0 then Scaled(m / 10, k + 1) else m
  }

  lemma {:induction false} ScaledUp(m: int, k: nat)
    ensures Scaled(m, k) == m * Power10(k)
    decreases k
  {
    if k > 0 {
      ScaledUp(10 * m, k - 1);
      assert 10 * m * Power10(k - 1) == m * (10 * Power10(k - 1));
    }
  }

  lemma {:induction false} ScaledDown(m: int, k: nat)
    ensures var w := Scaled(m, 0 - k); w * Power10(k) <= m < w * Power10(k) + Power10(k)
    decreases k
  {
    if k > 0 {
      ScaledDown(m / 10, k - 1);
      var w := Scaled(m, 0 - k);
      assert w == Scaled(m / 10, 1 - k);
      assert w * (10 * Power10(k - 1)) == 10 * (w * Power10(k - 1));
    }
  }

  // ----- the longest number -----

  predicate AllDigits(t: Bytes, start: nat, end: nat) {
    start <= end <= |t| && forall i :: start <= i < end ==> IsDigit(t[i])
  }

  /**
   * The first `k` bytes are a number: a sign up to `s`, digits up to `i`, a fraction up to `f`, and an
   * exponent whose digits begin at `g`. There is a digit in front of the exponent.
   */
  predicate Shape(t: Bytes, k: nat, s: nat, i: nat, f: nat, g: nat) {
    && s <= i <= f <= k <= |t|
    && (s == 0 || (s == 1 && IsSign(t[0]))) && AllDigits(t, s, i)
    && (f == i || (t[i] == POINT && AllDigits(t, i + 1, f))) && (i > s || f > i + 1)
    && (f == k || (IsExponent(t[f]) && f < g < k && AllDigits(t, g, k)
                   && (g == f + 1 || (g == f + 2 && IsSign(t[f + 1])))))
  }

  ghost predicate Numeral(t: Bytes, k: nat) {
    exists s: nat, i: nat, f: nat, g: nat :: Shape(t, k, s, i, f, g)
  }

  lemma {:induction false} DigitsRun(t: Bytes, start: nat, end: nat)
    requires AllDigits(t, start, end)
    ensures end <= DigitsEnd(t, start) && (end == |t| || !IsDigit(t[end]) ==> end == DigitsEnd(t, start))
    decreases end - start
  {
    if start < end { DigitsRun(t, start + 1, end); }
  }

  lemma {:induction false} DigitsUpTo(t: Bytes, start: nat)
    requires start <= |t|
    ensures AllDigits(t, start, DigitsEnd(t, start))
    ensures DigitsEnd(t, start) < |t| ==> !IsDigit(t[DigitsEnd(t, start)])
    decreases |t| - start
  {
    if start < |t| && IsDigit(t[start]) { DigitsUpTo(t, start + 1); }
  }

  lemma {:induction false} EndIsNumeral(t: Bytes)
    requires NumberEnd(t) > 0
    ensures Numeral(t, NumberEnd(t))
  {
    var s, i, f, g := SignEnd(t, 0), IntegerEnd(t), FractionEnd(t), ExponentStart(t);
    DigitsUpTo(t, s);
    if i < |t| { DigitsUpTo(t, i + 1); }
    DigitsUpTo(t, g);
    assert Shape(t, NumberEnd(t), s, i, f, g);
  }

  lemma {:induction false} ShapeEnds(t: Bytes, k: nat, s: nat, i: nat, f: nat, g: nat)
    requires Shape(t, k, s, i, f, g)
    ensures s == SignEnd(t, 0) && i <= IntegerEnd(t) && f <= FractionEnd(t) && HasDigits(t)
    ensures f < k ==> f == FractionEnd(t)
  {
    DigitsRun(t, s, i);
    if f > i { DigitsRun(t, i + 1, f); }
  }

  /** No longer part of the text is a number. */
  lemma {:induction false} NumeralWithin(t: Bytes, k: nat)
    requires Numeral(t, k)
    ensures 0 < k <= NumberEnd(t)
  {
    var s: nat, i: nat, f: nat, g: nat :| Shape(t, k, s, i, f, g);
    ShapeEnds(t, k, s, i, f, g);
    if f < k {
      assert IsDigit(t[g]);
      DigitsRun(t, g, k);
    }
  }

  /** strtod takes the longest beginning that is a number, and nothing exactly if there is none. */
  lemma LongestNumeral(t: Bytes, k: nat)
    ensures Numeral(t, k) ==> 0 < k <= NumberEnd(t)
    ensures NumberEnd(t) > 0 <==> Numeral(t, NumberEnd(t))
  {
    if Numeral(t, k) { NumeralWithin(t, k); }
    if NumberEnd(t) > 0 { EndIsNumeral(t); }
    if Numeral(t, NumberEnd(t)) { NumeralWithin(t, NumberEnd(t)); }
  }

  // ----- integers -----

  lemma {:induction false} RunIs(t: Bytes, i: nat, end: nat, d: Bytes)
    requires i <= end <= |t|
    ensures RunValue(t, i, end, DigitsValue(d)) == DigitsValue(d + Part(t, i, end - i))
    decreases end - i
  {
    if i == end {
      AppendNothing(d);
    } else {
      OneDigitMore(d, t[i]);
      RunIs(t, i + 1, end, d + [t[i]]);
      assert (d + [t[i]]) + Part(t, i + 1, end - i - 1) == d + Part(t, i, end - i);
    }
  }

  lemma {:induction false} WholeRun(t: Bytes, i: nat, end: nat)
    requires i <= end <= |t|
    ensures RunValue(t, i, end, 0) == DigitsValue(Part(t, i, end - i))
  {
    RunIs(t, i, end, []);
    assert [] + Part(t, i, end - i) == Part(t, i, end - i);
  }

  /** An integer with a minus sign or none, followed by nothing that belongs to a number. */
  lemma {:induction false} IntegerTaken(t: Bytes, s: nat, e: nat)
    requires s < e && AllDigits(t, s, e) && s == (if t[0] == MINUS then 1 else 0)
    requires e == |t| || !(IsDigit(t[e]) || t[e] == POINT || IsExponent(t[e]))
    ensures NumberEnd(t) == e
    ensures WholePart(t) == if s == 1 then -DigitsValue(Part(t, s, e - s)) else DigitsValue(Part(t, s, e - s))
  {
    assert SignEnd(t, 0) == s;
    DigitsRun(t, s, e);
    assert IntegerEnd(t) == FractionEnd(t) == ExponentStart(t) == e;
    WholeRun(t, s, e);
  }

  // ----- a number and what follows it -----

  /** What may follow a number: a byte that cannot continue one. */
  predicate NumberEnds(c: Bytes, e: nat) {
    e < |c| ==> !IsDigit(c[e]) && c[e] != POINT && !IsExponent(c[e])
  }

  lemma {:induction false} SameDigitsEnd(t: Bytes, text: Bytes, i: nat)
    requires t <= text && i <= |t| && NumberEnds(text, |t|)
    ensures DigitsEnd(text, i) == DigitsEnd(t, i)
    decreases |t| - i
  {
    if i < |t| && IsDigit(t[i]) { SameDigitsEnd(t, text, i + 1); }
  }

  lemma {:induction false} SameEnds(t: Bytes, text: Bytes)
    requires t != [] && t <= text && NumberEnds(text, |t|) && NumberEnd(t) == |t|
    ensures SignEnd(text, 0) == SignEnd(t, 0) && IntegerEnd(text) == IntegerEnd(t)
    ensures FractionEnd(text) == FractionEnd(t)
    ensures ExponentStart(text) == ExponentStart(t) && NumberEnd(text) == |t|
  {
    SameDigitsEnd(t, text, SignEnd(t, 0));
    var i := IntegerEnd(t);
    if i < |t| { SameDigitsEnd(t, text, i + 1); }
    SameDigitsEnd(t, text, ExponentStart(t));
  }

  lemma {:induction false} SameRun(t: Bytes, text: Bytes, i: nat, end: nat, n: int)
    requires t <= text && end <= |t|
    ensures RunValue(text, i, end, n) == RunValue(t, i, end, n)
    decreases end - i
  {
    if i < end { SameRun(t, text, i + 1, end, 10 * n + (t[i] as int - 48)); }
  }

  lemma {:induction false} SameMantissa(t: Bytes, text: Bytes)
    requires t != [] && t <= text && NumberEnds(text, |t|) && NumberEnd(t) == |t|
    ensures Mantissa(text) == Mantissa(t)
  {
    var s, i, f := SignEnd(t, 0), IntegerEnd(t), FractionEnd(t);
    SameEnds(t, text);
    SameRun(t, text, s, i, 0);
    SameRun(t, text, i + 1, f, RunValue(t, s, i, 0));
  }

  lemma {:induction false} SameExponent(t: Bytes, text: Bytes)
    requires t != [] && t <= text && NumberEnds(text, |t|) && NumberEnd(t) == |t|
    ensures Exponent(text) == Exponent(t)
  {
    var x := ExponentStart(t);
    SameEnds(t, text);
    SameDigitsEnd(t, text, x);
    SameRun(t, text, x, DigitsEnd(t, x), 0);
  }

  /** strtod takes such a number out of a longer text, with its value. */
  lemma {:induction false} TakenAlone(t: Bytes, text: Bytes)
    requires t <= text && NumberEnds(text, |t|) && NumberEnd(t) == |t| > 0
    ensures NumberEnd(text) == |t| && WholePart(text) == WholePart(t)
  {
    SameEnds(t, text);
    SameMantissa(t, text);
    SameExponent(t, text);
  }

  // ----- the value -----

  /** x * 10^k. */
  function Shifted(x: real, k: int): real
    decreases if k >= 0 then k else -k
  {
    if k > 0 then Shifted(10.0 * x, k - 1) else if k < 0 then Shifted(x / 10.0, k + 1) else x
  }

  lemma {:induction false} ShiftUp(m: int, k: nat)
    ensures Shifted(m as real, k) == Scaled(m, k) as real
    decreases k
  {
    if k > 0 {
      ShiftUp(10 * m, k - 1);
      assert (10 * m) as real == 10.0 * (m as real);
    }
  }

  lemma {:induction false} ShiftDown(m: int, x: real, k: nat)
    requires m as real <= x < (m + 1) as real
    ensures Scaled(m, 0 - k) as real <= Shifted(x, 0 - k) < (Scaled(m, 0 - k) + 1) as real
    decreases k
  {
    if k > 0 {
      var q := m / 10;
      assert 10 * q <= m < 10 * q + 10;
      assert q as real <= x / 10.0 < (q + 1) as real;
      ShiftDown(q, x / 10.0, k - 1);
      assert Scaled(m, 0 - k) == Scaled(q, 1 - k) && Shifted(x, 0 - k) == Shifted(x / 10.0, 1 - k);
    }
  }

  lemma {:induction false} ShiftedSign(x: real, k: int)
    requires x >= 0.0
    ensures Shifted(x, k) >= 0.0
    decreases if k >= 0 then k else -k
  {
    if k > 0 { ShiftedSign(10.0 * x, k - 1); } else if k < 0 { ShiftedSign(x / 10.0, k + 1); }
  }

  lemma DigitAt(t: Bytes, s: nat, i: nat)
    requires s <= |t|
    ensures s <= i < DigitsEnd(t, s) ==> IsDigit(t[i])
  {
    DigitsUpTo(t, s);
  }

  /** The parts of the longest number are the ones strtod finds. */
  lemma {:induction false} PartsFound(t: Bytes, s: nat, i: nat, f: nat, g: nat)
    requires Shape(t, NumberEnd(t), s, i, f, g)
    ensures s == SignEnd(t, 0) && i == IntegerEnd(t) && f == FractionEnd(t)
    ensures if f < NumberEnd(t) then g == ExponentStart(t) && NumberEnd(t) == DigitsEnd(t, g) else ExponentStart(t) == f
  {
    var k := NumberEnd(t);
    ShapeEnds(t, k, s, i, f, g);
    DigitAt(t, s, i);
    if f < k { assert IsDigit(t[g]); }
  }

  /** The digits before and behind the point. */
  function DigitsOf(t: Bytes, s: nat, i: nat, f: nat): Bytes
    requires s <= i <= f <= |t|
  {
    Part(t, s, i - s) + if f > i then Part(t, i + 1, f - i - 1) else []
  }

  /** The power of ten: the exponent, if there is one, less the number of digits behind the point. */
  function PowerOf(t: Bytes, k: nat, i: nat, f: nat, g: nat): int
    requires i <= f <= k <= |t| && (f < k ==> f < g < k)
  {
    var digits := if f < k then DigitsValue(Part(t, g, k - g)) else 0;
    (if f < k && g == f + 2 && t[f + 1] == MINUS then -digits else digits) - (if f > i then f - i - 1 else 0)
  }

  /** The value of those parts: the digits times the power of ten. */
  function RealValue(t: Bytes, k: nat, s: nat, i: nat, f: nat, g: nat): real
    requires Shape(t, k, s, i, f, g)
  {
    var x := Shifted(DigitsValue(DigitsOf(t, s, i, f)) as real, PowerOf(t, k, i, f, g));
    if s == 1 && t[0] == MINUS then -x else x
  }

  /** `x` without its fraction. */
  predicate TowardZero(n: int, x: real) {
    (x >= 0.0 ==> n as real <= x < (n + 1) as real) && (x <= 0.0 ==> (n - 1) as real < x <= n as real)
  }

  lemma {:induction false} DigitsNatural(d: Bytes)
    requires AllDigits(d, 0, |d|)
    ensures DigitsValue(d) >= 0
  {
    if d != [] {
      assert IsDigit(d[|d| - 1]);
      DigitsNatural(d[..|d| - 1]);
    }
  }

  lemma {:induction false} PowerFound(t: Bytes, s: nat, i: nat, f: nat, g: nat)
    requires Shape(t, NumberEnd(t), s, i, f, g)
    ensures Exponent(t) == PowerOf(t, NumberEnd(t), i, f, g) && Mantissa(t) == DigitsValue(DigitsOf(t, s, i, f))
    ensures t != [] && (t[0] == MINUS <==> s == 1 && t[0] == MINUS)
  {
    PartsFound(t, s, i, f, g);
    WholeRun(t, s, i);
    AppendNothing(Part(t, s, i - s));
    if f > i { RunIs(t, i + 1, f, Part(t, s, i - s)); }
    if f < NumberEnd(t) { WholeRun(t, g, NumberEnd(t)); }
  }

  /** The whole part is the value of the number, cut off toward zero. */
  lemma {:induction false} NumeralValue(t: Bytes, s: nat, i: nat, f: nat, g: nat)
    requires Shape(t, NumberEnd(t), s, i, f, g)
    ensures TowardZero(WholePart(t), RealValue(t, NumberEnd(t), s, i, f, g))
  {
    var d, p := DigitsOf(t, s, i, f), PowerOf(t, NumberEnd(t), i, f, g);
    PowerFound(t, s, i, f, g);
    PartDigits(t, s, i, f);
    DigitsNatural(d);
    ScaledCut(DigitsValue(d), p);
  }

  lemma {:induction false} PartDigits(t: Bytes, s: nat, i: nat, f: nat)
    requires AllDigits(t, s, i) && i <= f <= |t| && (f > i ==> AllDigits(t, i + 1, f))
    ensures AllDigits(DigitsOf(t, s, i, f), 0, |DigitsOf(t, s, i, f)|)
  {
    var d := DigitsOf(t, s, i, f);
    forall j | 0 <= j < |d| ensures IsDigit(d[j]) {
      if j < i - s { assert IsDigit(t[s + j]); } else { assert IsDigit(t[i + 1 + (j - (i - s))]); }
    }
  }

  lemma {:induction false} ScaledCut(m: int, e: int)
    requires m >= 0
    ensures TowardZero(Scaled(m, e), Shifted(m as real, e)) && TowardZero(-Scaled(m, e), -Shifted(m as real, e))
  {
    if e >= 0 { ShiftUp(m, e); } else { ShiftDown(m, m as real, -e); }
    ShiftedSign(m as real, e);
  }

  // ----- the number alone -----

  /** What strtod takes of a text is a number with the same value. */
  lemma {:induction false} TakenPart(text: Bytes, t: Bytes)
    requires NumberEnd(text) > 0 && t == Part(text, 0, NumberEnd(text))
    ensures NumberEnd(t) == |t| && WholePart(t) == WholePart(text)
  {
    var k := NumberEnd(text);
    EndIsNumeral(text);
    var s: nat, i: nat, f: nat, g: nat :| Shape(text, k, s, i, f, g);
    ShapeAlone(text, t, k, s, i, f, g);
    assert Numeral(t, k);
    NumeralWithin(t, k);
    PowerFound(text, s, i, f, g);
    PowerFound(t, s, i, f, g);
    SameParts(text, t, k, s, i, f, g);
  }

  lemma {:induction false} ShapeAlone(text: Bytes, t: Bytes, k: nat, s: nat, i: nat, f: nat, g: nat)
    requires Shape(text, k, s, i, f, g) && t == Part(text, 0, k)
    ensures Shape(t, k, s, i, f, g)
  {
    assert forall j {:trigger t[j]} :: 0 <= j < k ==> t[j] == text[0 + j];
  }

  lemma {:induction false} SameParts(text: Bytes, t: Bytes, k: nat, s: nat, i: nat, f: nat, g: nat)
    requires Shape(text, k, s, i, f, g) && Shape(t, k, s, i, f, g) && t == Part(text, 0, k)
    ensures DigitsOf(t, s, i, f) == DigitsOf(text, s, i, f) && PowerOf(t, k, i, f, g) == PowerOf(text, k, i, f, g)
    ensures t[0] == text[0]
  {
    SameStretch(text, t, k, s, i - s);
    if f > i { SameStretch(text, t, k, i + 1, f - i - 1); }
    if f < k {
      SameStretch(text, t, k, g, k - g);
      assert t[f + 1] == text[0 + (f + 1)];
    }
    assert t[0] == text[0 + 0];
  }

  lemma {:induction false} SameStretch(text: Bytes, t: Bytes, k: nat, start: nat, n: nat)
    requires k <= |text| && t == Part(text, 0, k) && start + n <= k
    ensures Part(t, start, n) == Part(text, start, n)
  {
    forall j | 0 <= j < n ensures Part(t, start, n)[j] == Part(text, start, n)[j] {
      assert Part(t, start, n)[j] == t[start + j] == text[0 + (start + j)];
    }
  }
}
