// jsoncpp's integers: text to number without overflow, and number to text in a fixed buffer.
module JsoncppNumber {
  import opened Sequences
  import opened Octets
  import opened DecimalText

  const HYPHEN: Byte := 45

  const MAX_INT: int := 0x7FFF_FFFF_FFFF_FFFF
  const MIN_INT: int := -0x8000_0000_0000_0000
  const MAX_UINT: int := 0xFFFF_FFFF_FFFF_FFFF

  /** LargestUInt: what does not fit does not verify. */
  newtype UInt64 = n: int | 0 <= n <= 0xFFFF_FFFF_FFFF_FFFF

  newtype Int64 = n: int | -0x8000_0000_0000_0000 <= n <= 0x7FFF_FFFF_FFFF_FFFF

  /** decodeDouble takes over when the text is no integer or too large for one. */
  datatype Decoded = Int(i: Int64) | UInt(u: UInt64) | Double

  predicate IsDigit(b: Byte) {
    48 <= b <= 57
  }

  // ----- text to number -----

  /** A minus sign is optional, the rest is digits, of any number. */
  predicate IntegerText(text: Bytes) {
    forall i :: (if StartsNegative(text) then 1 else 0) <= i < |text| ==> IsDigit(text[i])
  }

  predicate StartsNegative(text: Bytes) {
    text != [] && text[0] == HYPHEN
  }

  /** The integer a text stands for; a lone minus sign stands for 0. */
  function Meaning(text: Bytes): int {
    if StartsNegative(text) then -DigitsValue(text[1..]) else DigitsValue(text)
  }

  /** The exact integer if the text has one and it fits 64 bits, signed where it can be. */
  function Expected(text: Bytes): Decoded {
    if !IntegerText(text) then Double
    else
      var n := Meaning(text);
      if n < MIN_INT || n > MAX_UINT then Double
      else if n <= MAX_INT then Int(n as Int64)
      else UInt(n as UInt64)
  }

  lemma {:induction false} ValueNotNegative(d: Bytes)
    requires forall i :: 0 <= i < |d| ==> IsDigit(d[i])
    ensures DigitsValue(d) >= 0
    decreases |d|
  {
    if d != [] { ValueNotNegative(d[..|d| - 1]); }
  }

  /** A digit more never makes the number smaller. */
  lemma {:induction false} ValueGrows(d: Bytes, k: nat)
    requires k <= |d| && forall i :: 0 <= i < |d| ==> IsDigit(d[i])
    ensures DigitsValue(d[..k]) <= DigitsValue(d)
    ensures k < |d| ==> 10 * DigitsValue(d[..k]) <= DigitsValue(d)
    decreases |d| - k
  {
    if k == |d| {
      assert d[..k] == d;
    } else {
      ValueGrows(d, k + 1);
      ValueNotNegative(d[..k]);
      assert d[..k + 1][..k] == d[..k];
    }
  }

  /**
   * decodeNumber. All its arithmetic is on 64-bit types: that it verifies says that nothing wraps.
   */
  method DecodeNumber(token: Bytes) returns (decoded: Decoded)
    requires token != []
    ensures decoded == Expected(token)
  {
    var isNegative := token[0] == HYPHEN;
    var start := if isNegative then 1 else 0;
    var threshold: UInt64 := if isNegative then 922337203685477580 else 1844674407370955161;
    var maxLastDigit: UInt64 := if isNegative then 8 else 5;
    ghost var digits := token[start..];
    var current := start;
    var value: UInt64 := 0;
    while current < |token|
      invariant start <= current <= |token|
      invariant forall i :: start <= i < current ==> IsDigit(token[i])
      invariant value as int == DigitsValue(digits[..current - start])
      invariant value as int <= 10 * threshold as int + maxLastDigit as int
    {
      var c := token[current];
      current := current + 1;
      ghost var k := current - start;
      assert digits[..k][..k - 1] == digits[..k - 1] && digits[k - 1] == c;
      if c < 48 || c > 57 {
        return Double;
      }
      var digit := (c - 48) as UInt64;
      if value >= threshold {
        if value > threshold || current != |token| || digit > maxLastDigit {
          TooLarge(token, start, k, value as int, threshold as int, maxLastDigit as int);
          return Double;
        }
      }
      value := value * 10 + digit;
    }
    assert digits[..current - start] == digits && (!isNegative ==> digits == token);
    if isNegative {
      var lastDigit := value % 10;
      decoded := Int(-((value / 10) as Int64) * 10 - lastDigit as Int64);
    } else if value <= 0x7FFF_FFFF_FFFF_FFFF {
      decoded := Int(value as Int64);
    } else {
      decoded := UInt(value);
    }
  }

  /** Past the threshold the whole number is out of range, or the text is no integer. */
  lemma TooLarge(token: Bytes, start: nat, k: nat, value: int, threshold: int, maxLastDigit: int)
    requires token != [] && start == (if token[0] == HYPHEN then 1 else 0) && 0 < k <= |token| - start
    requires threshold == (if start == 1 then 922337203685477580 else 1844674407370955161)
    requires maxLastDigit == if start == 1 then 8 else 5
    requires value == DigitsValue(token[start..][..k - 1]) && value >= threshold && IsDigit(token[start..][k - 1])
    requires value > threshold || k < |token| - start || token[start..][k - 1] as int - 48 > maxLastDigit
    ensures Expected(token) == Double
  {
    var d := token[start..];
    if IntegerText(token) {
      assert forall i :: 0 <= i < |d| ==> d[i] == token[start + i];
      assert d[..k][..k - 1] == d[..k - 1];
      ValueGrows(d, k);
      assert DigitsValue(d[..k]) == 10 * value + d[k - 1] as int - 48;
      assert start == 0 ==> d == token;
    }
  }

  // ----- number to text -----

  /** uintToStringBufferSize. */
  const BUFFER_SIZE: nat := 25

  function Text(n: int): Bytes {
    if n < 0 then [HYPHEN] + Digits(-n) else Digits(n)
  }

  /** The digits that are still to be written. */
  function Leading(left: nat): Bytes {
    if left == 0 then [] else Digits(left)
  }

  lemma LastDigitFirst(left: nat, done: Bytes)
    requires left > 0
    ensures Leading(left) + done == Leading(left / 10) + ([(48 + left % 10) as Byte] + done)
  {
    Regroup(Leading(left / 10), [(48 + left % 10) as Byte], done);
  }

  /** uintToString: digits are written from the end of the buffer towards its front. */
  method UintToString(value: UInt64, buffer: array<Byte>, current: nat) returns (start: nat)
    requires |Digits(value as nat)| < current <= buffer.Length
    modifies buffer
    ensures start == current - 1 - |Digits(value as nat)|
    ensures TextAt(buffer[..], start, Digits(value as nat) + [0])
    ensures forall i :: 0 <= i < start ==> buffer[i] == old(buffer[i])
  {
    start := current - 1;
    buffer[start] := 0;
    start := start - 1;
    buffer[start] := (value % 10) as Byte + 48;
    var left := value / 10;
    ghost var done := [buffer[start]];
    while left != 0
      invariant 0 <= start && start + |done| == current - 1 && buffer[current - 1] == 0
      invariant Leading(left as nat) + done == Digits(value as nat)
      invariant forall i {:trigger done[i]} :: 0 <= i < |done| ==> buffer[start + i] == done[i]
      invariant forall i :: 0 <= i < start ==> buffer[i] == old(buffer[i])
    {
      LastDigitFirst(left as nat, done);
      start := start - 1;
      buffer[start] := (left % 10) as Byte + 48;
      done := [buffer[start]] + done;
      left := left / 10;
    }
    assert [] + done == done;
  }

  /** The C string from `start` to the zero at the end of the buffer. */
  method TextFrom(buffer: array<Byte>, start: nat, ghost expected: Bytes) returns (text: Bytes)
    requires BUFFER_SIZE == buffer.Length == start + |expected| + 1 && TextAt(buffer[..], start, expected + [0])
    ensures text == expected
  {
    text := buffer[start..BUFFER_SIZE - 1];
    assert forall i :: 0 <= i < |expected| ==> buffer[start + i] == (expected + [0])[i] == expected[i];
  }

  method PutSign(buffer: array<Byte>, current: nat, ghost magnitude: nat) returns (start: nat)
    requires 0 < current < BUFFER_SIZE == buffer.Length && TextAt(buffer[..], current, Digits(magnitude) + [0])
    modifies buffer
    ensures start == current - 1 && TextAt(buffer[..], start, [HYPHEN] + Digits(magnitude) + [0])
  {
    start := current - 1;
    ghost var was := Digits(magnitude) + [0];
    assert forall i :: 0 <= i < |was| ==> buffer[current + i] == was[i];
    buffer[start] := HYPHEN;
    Regroup([HYPHEN], Digits(magnitude), [0]);
    SignInFront(buffer[..], start, was);
  }

  lemma SignInFront(c: Bytes, start: nat, text: Bytes)
    requires start < |c| && c[start] == HYPHEN && TextAt(c, start + 1, text)
    ensures TextAt(c, start, [HYPHEN] + text)
  {
    forall i | 0 <= i < |[HYPHEN] + text| ensures c[start + i] == ([HYPHEN] + text)[i] {
      if i > 0 { assert c[start + 1 + (i - 1)] == text[i - 1]; }
    }
  }

  /** The text of a negative number, from its magnitude. */
  method NegativeToString(magnitude: UInt64, buffer: array<Byte>) returns (current: nat)
    requires buffer.Length == BUFFER_SIZE && magnitude > 0
    modifies buffer
    ensures BUFFER_SIZE == current + |Text(-(magnitude as int))| + 1
         && TextAt(buffer[..], current, Text(-(magnitude as int)) + [0])
  {
    FitsBuffer(magnitude as nat);
    current := UintToString(magnitude, buffer, BUFFER_SIZE);
    current := PutSign(buffer, current, magnitude as nat);
  }

  /** valueToString of a signed integer: the text never outgrows the buffer. */
  method SignedToString(value: Int64) returns (text: Bytes)
    ensures text == Text(value as int) && |text| < BUFFER_SIZE
  {
    var buffer := new Byte[BUFFER_SIZE];
    var current;
    if value == -0x8000_0000_0000_0000 {
      current := NegativeToString(0x7FFF_FFFF_FFFF_FFFF + 1, buffer);
    } else if value < 0 {
      current := NegativeToString((-value) as UInt64, buffer);
    } else {
      FitsBuffer(value as nat);
      current := UintToString(value as UInt64, buffer, BUFFER_SIZE);
    }
    TextFits(value as int);
    text := TextFrom(buffer, current, Text(value as int));
  }

  method UnsignedToString(value: UInt64) returns (text: Bytes)
    ensures text == Text(value as int) && |text| < BUFFER_SIZE
  {
    var buffer := new Byte[BUFFER_SIZE];
    TextFits(value as int);
    FitsBuffer(value as nat);
    var current := UintToString(value, buffer, BUFFER_SIZE);
    text := TextFrom(buffer, current, Text(value as int));
  }

  lemma TextFits(n: int)
    requires -MAX_UINT <= n <= MAX_UINT
    ensures |Text(n)| < BUFFER_SIZE
  {
    FitsBuffer(if n < 0 then -n else n);
  }

  lemma FitsBuffer(n: nat)
    requires n <= MAX_UINT
    ensures |Digits(n)| <= 20
  {
    assert Power10(20) == 100_000_000_000_000_000_000 by {
      assert Power10(10) == 10_000_000_000;
      PowerSplit(10, 10);
    }
    DigitsShort(n, 20, Power10(20));
  }

  lemma {:induction false} PowerSplit(a: nat, b: nat)
    ensures Power10(a + b) == Power10(a) * Power10(b)
    decreases a
  {
    if a > 0 { PowerSplit(a - 1, b); }
  }

  // ----- the inverse -----

  /** Every 64-bit integer, signed or unsigned, is read back from its text. */
  lemma TextDecodes(n: int)
    requires MIN_INT <= n <= MAX_UINT
    ensures Text(n) != [] && Expected(Text(n)) == if n <= MAX_INT then Int(n as Int64) else UInt(n as UInt64)
  {
    if n < 0 {
      SignedMeaning(-n);
    } else {
      PlainMeaning(n);
    }
  }

  lemma SignedMeaning(n: nat)
    ensures var t := [HYPHEN] + Digits(n); IntegerText(t) && Meaning(t) == 0 - n
  {
    var t := [HYPHEN] + Digits(n);
    assert t[1..] == Digits(n);
    DigitsRoundTrip(n);
  }

  lemma PlainMeaning(n: nat)
    ensures var t := Digits(n); IntegerText(t) && Meaning(t) == n
  {
    assert 48 <= Digits(n)[0] <= 57;
    DigitsRoundTrip(n);
  }
}
