// The CRC-16 that the desktop tool and the device compute with the same table.
module Crc16 {
  import opened Octets

  // ----- the table -----

  /** One of the eight values in a row of the table. */
  function Pick(k: bv8, a: bv16, b: bv16, c: bv16, d: bv16, e: bv16, f: bv16, g: bv16, h: bv16): bv16 {
    if k == 0 then a else if k == 1 then b else if k == 2 then c else if k == 3 then d
    else if k == 4 then e else if k == 5 then f else if k == 6 then g else h
  }

  /** crc16_table, 32 rows of eight. */
  function Table(i: bv8): bv16 {
    var r, k := i >> 3, i & 7;
    if r == 0 then Pick(k, 0x0000, 0xC0C1, 0xC181, 0x0140, 0xC301, 0x03C0, 0x0280, 0xC241)
    else if r == 1 then Pick(k, 0xC601, 0x06C0, 0x0780, 0xC741, 0x0500, 0xC5C1, 0xC481, 0x0440)
    else if r == 2 then Pick(k, 0xCC01, 0x0CC0, 0x0D80, 0xCD41, 0x0F00, 0xCFC1, 0xCE81, 0x0E40)
    else if r == 3 then Pick(k, 0x0A00, 0xCAC1, 0xCB81, 0x0B40, 0xC901, 0x09C0, 0x0880, 0xC841)
    else if r == 4 then Pick(k, 0xD801, 0x18C0, 0x1980, 0xD941, 0x1B00, 0xDBC1, 0xDA81, 0x1A40)
    else if r == 5 then Pick(k, 0x1E00, 0xDEC1, 0xDF81, 0x1F40, 0xDD01, 0x1DC0, 0x1C80, 0xDC41)
    else if r == 6 then Pick(k, 0x1400, 0xD4C1, 0xD581, 0x1540, 0xD701, 0x17C0, 0x1680, 0xD641)
    else if r == 7 then Pick(k, 0xD201, 0x12C0, 0x1380, 0xD341, 0x1100, 0xD1C1, 0xD081, 0x1040)
    else if r == 8 then Pick(k, 0xF001, 0x30C0, 0x3180, 0xF141, 0x3300, 0xF3C1, 0xF281, 0x3240)
    else if r == 9 then Pick(k, 0x3600, 0xF6C1, 0xF781, 0x3740, 0xF501, 0x35C0, 0x3480, 0xF441)
    else if r == 10 then Pick(k, 0x3C00, 0xFCC1, 0xFD81, 0x3D40, 0xFF01, 0x3FC0, 0x3E80, 0xFE41)
    else if r == 11 then Pick(k, 0xFA01, 0x3AC0, 0x3B80, 0xFB41, 0x3900, 0xF9C1, 0xF881, 0x3840)
    else if r == 12 then Pick(k, 0x2800, 0xE8C1, 0xE981, 0x2940, 0xEB01, 0x2BC0, 0x2A80, 0xEA41)
    else if r == 13 then Pick(k, 0xEE01, 0x2EC0, 0x2F80, 0xEF41, 0x2D00, 0xEDC1, 0xEC81, 0x2C40)
    else if r == 14 then Pick(k, 0xE401, 0x24C0, 0x2580, 0xE541, 0x2700, 0xE7C1, 0xE681, 0x2640)
    else if r == 15 then Pick(k, 0x2200, 0xE2C1, 0xE381, 0x2340, 0xE101, 0x21C0, 0x2080, 0xE041)
    else if r == 16 then Pick(k, 0xA001, 0x60C0, 0x6180, 0xA141, 0x6300, 0xA3C1, 0xA281, 0x6240)
    else if r == 17 then Pick(k, 0x6600, 0xA6C1, 0xA781, 0x6740, 0xA501, 0x65C0, 0x6480, 0xA441)
    else if r == 18 then Pick(k, 0x6C00, 0xACC1, 0xAD81, 0x6D40, 0xAF01, 0x6FC0, 0x6E80, 0xAE41)
    else if r == 19 then Pick(k, 0xAA01, 0x6AC0, 0x6B80, 0xAB41, 0x6900, 0xA9C1, 0xA881, 0x6840)
    else if r == 20 then Pick(k, 0x7800, 0xB8C1, 0xB981, 0x7940, 0xBB01, 0x7BC0, 0x7A80, 0xBA41)
    else if r == 21 then Pick(k, 0xBE01, 0x7EC0, 0x7F80, 0xBF41, 0x7D00, 0xBDC1, 0xBC81, 0x7C40)
    else if r == 22 then Pick(k, 0xB401, 0x74C0, 0x7580, 0xB541, 0x7700, 0xB7C1, 0xB681, 0x7640)
    else if r == 23 then Pick(k, 0x7200, 0xB2C1, 0xB381, 0x7340, 0xB101, 0x71C0, 0x7080, 0xB041)
    else if r == 24 then Pick(k, 0x5000, 0x90C1, 0x9181, 0x5140, 0x9301, 0x53C0, 0x5280, 0x9241)
    else if r == 25 then Pick(k, 0x9601, 0x56C0, 0x5780, 0x9741, 0x5500, 0x95C1, 0x9481, 0x5440)
    else if r == 26 then Pick(k, 0x9C01, 0x5CC0, 0x5D80, 0x9D41, 0x5F00, 0x9FC1, 0x9E81, 0x5E40)
    else if r == 27 then Pick(k, 0x5A00, 0x9AC1, 0x9B81, 0x5B40, 0x9901, 0x59C0, 0x5880, 0x9841)
    else if r == 28 then Pick(k, 0x8801, 0x48C0, 0x4980, 0x8941, 0x4B00, 0x8BC1, 0x8A81, 0x4A40)
    else if r == 29 then Pick(k, 0x4E00, 0x8EC1, 0x8F81, 0x4F40, 0x8D01, 0x4DC0, 0x4C80, 0x8C41)
    else if r == 30 then Pick(k, 0x4400, 0x84C1, 0x8581, 0x4540, 0x8701, 0x47C0, 0x4680, 0x8641)
    else Pick(k, 0x8201, 0x42C0, 0x4380, 0x8341, 0x4100, 0x81C1, 0x8081, 0x4040)
  }

  /** crc16_byte. */
  function Crc16Byte(crc: bv16, data: bv8): bv16 {
    (crc >> 8) ^ Table(((crc ^ (data as bv16)) & 0xFF) as bv8)
  }

  // ----- the polynomial, bit by bit -----

  /**
   * One bit of the reflected CRC with polynomial x^16 + x^15 + x^2 + 1: the bit shifted out feeds back
   * into bits 15, 13 and 0.
   */
  function Bit(crc: bv16): bv16 {
    var out := crc & 1;
    (crc >> 1) ^ (out << 15) ^ (out << 13) ^ out
  }

  function Bits8(crc: bv16): bv16 {
    Bit(Bit(Bit(Bit(Bit(Bit(Bit(Bit(crc))))))))
  }

  function Mix(crc: bv16, data: bv8): bv16 {
    crc ^ (data as bv16)
  }

  /** A byte is added to the low end and eight bits are shifted out. */
  function Next(crc: bv16, data: bv8): bv16 {
    Bits8(Mix(crc, data))
  }

  function Fold<S, D>(f: (S, D) -> S, s: S, ds: seq<D>): S
    decreases |ds|
  {
    if ds == [] then s else Fold(f, f(s, ds[0]), ds[1..])
  }

  /** The CRC of a buffer, bit by bit. */
  function Serial(crc: bv16, bytes: seq<bv8>): bv16 {
    Fold(Next, crc, bytes)
  }

  // ----- the table is the polynomial -----

  /** The table holds the remainder of every byte. */
  lemma TableIsSerial(i: bv8)
    ensures Table(i) == Bits8(i as bv16)
  {
  }

  lemma HighBits(x: bv16)
    ensures Bits8(x) == (x >> 8) ^ Bits8(x & 0xFF)
  {
  }

  lemma LowByte(crc: bv16, data: bv8)
    ensures (crc ^ (data as bv16)) >> 8 == crc >> 8
    ensures (((crc ^ (data as bv16)) & 0xFF) as bv8) as bv16 == (crc ^ (data as bv16)) & 0xFF
  {
  }

  /** One look-up does eight bits. */
  lemma ByteStep(crc: bv16, data: bv8)
    ensures Crc16Byte(crc, data) == Next(crc, data)
  {
    var x := crc ^ (data as bv16);
    LowByte(crc, data);
    HighBits(x);
    TableIsSerial((x & 0xFF) as bv8);
  }

  lemma {:induction false} FoldSame<S(!new), D(!new)>(f: (S, D) -> S, g: (S, D) -> S, s: S, ds: seq<D>)
    requires forall a, d :: f(a, d) == g(a, d)
    ensures Fold(f, s, ds) == Fold(g, s, ds)
    decreases |ds|
  {
    if ds != [] { FoldSame(f, g, f(s, ds[0]), ds[1..]); }
  }

  /** On every buffer the table-driven CRC is the bit-serial one. */
  lemma TableDriven(crc: bv16, bytes: seq<bv8>)
    ensures Fold(Crc16Byte, crc, bytes) == Serial(crc, bytes)
  {
    forall a, d ensures Crc16Byte(a, d) == Next(a, d) { ByteStep(a, d); }
    FoldSame(Crc16Byte, Next, crc, bytes);
  }

  lemma FoldNext<S, D>(f: (S, D) -> S, s: S, ds: seq<D>, i: nat)
    requires i < |ds|
    ensures Fold(f, s, ds[i..]) == Fold(f, f(s, ds[i]), ds[i + 1..])
  {
    assert ds[i..][0] == ds[i] && ds[i..][1..] == ds[i + 1..];
  }

  lemma NineBytes()
    ensures Next(0xFFFF, 49) == 0x947E
    ensures Next(0x947E, 50) == 0xF595
    ensures Next(0xF595, 51) == 0x7A75
    ensures Next(0x7A75, 52) == 0x30BA
    ensures Next(0x30BA, 53) == 0xA471
    ensures Next(0xA471, 54) == 0x32E4
    ensures Next(0x32E4, 55) == 0x9D73
    ensures Next(0x9D73, 56) == 0x37DD
    ensures Next(0x37DD, 57) == 0x4B37
  {
  }

  lemma {:induction false} FoldThree<S, D>(f: (S, D) -> S, s: S, d: seq<D>, i: nat)
    requires i + 3 <= |d|
    ensures Fold(f, s, d[i..]) == Fold(f, f(f(f(s, d[i]), d[i + 1]), d[i + 2]), d[i + 3..])
  {
    FoldNext(f, s, d, i);
    FoldNext(f, f(s, d[i]), d, i + 1);
    FoldNext(f, f(f(s, d[i]), d[i + 1]), d, i + 2);
  }

  lemma {:induction false} FoldNine<S, D>(f: (S, D) -> S, s: S, d: seq<D>)
    requires |d| == 9
    ensures Fold(f, s, d) == f(f(f(f(f(f(f(f(f(s, d[0]), d[1]), d[2]), d[3]), d[4]), d[5]), d[6]), d[7]), d[8])
  {
    assert d[0..] == d && d[9..] == [];
    var t := f(f(f(s, d[0]), d[1]), d[2]);
    FoldThree(f, s, d, 0);
    FoldThree(f, t, d, 3);
    FoldThree(f, f(f(f(t, d[3]), d[4]), d[5]), d, 6);
  }

  /** The check value of this CRC, started with all ones: that of the digits 1 to 9. */
  lemma CheckValue()
    ensures Serial(0xFFFF, [49, 50, 51, 52, 53, 54, 55, 56, 57]) == 0x4B37
  {
    var d: seq<bv8> := [49, 50, 51, 52, 53, 54, 55, 56, 57];
    FoldNine(Next, 0xFFFF, d);
    NineBytes();
  }

  function Words(bytes: Bytes): (r: seq<bv8>)
    ensures |r| == |bytes| && forall i {:trigger r[i]} :: 0 <= i < |bytes| ==> r[i] == bytes[i] as bv8
  {
    seq(|bytes|, i requires 0 <= i < |bytes| => bytes[i] as bv8)
  }

  /** crc16: a loop of look-ups. */
  method Compute(start: bv16, buffer: array<Byte>, from: nat, len: nat) returns (crc: bv16)
    requires from + len <= buffer.Length
    ensures crc == Serial(start, Words(buffer[from..from + len]))
  {
    crc := start;
    var i := 0;
    ghost var words := Words(buffer[from..from + len]);
    assert words[0..] == words;
    while i < len
      invariant 0 <= i <= len
      invariant Fold(Crc16Byte, start, words) == Fold(Crc16Byte, crc, words[i..])
    {
      FoldNext(Crc16Byte, crc, words, i);
      crc := Crc16Byte(crc, buffer[from + i] as bv8);
      i := i + 1;
    }
    TableDriven(start, words);
  }

  // ----- it is linear -----

  function Plus(x: bv16, y: bv16): bv16 {
    x ^ y
  }

  function PlusByte(d: bv8, e: bv8): bv8 {
    d ^ e
  }

  function Together<D>(add: (D, D) -> D, a: seq<D>, b: seq<D>): (r: seq<D>)
    requires |a| == |b|
    ensures |r| == |a|
  {
    if a == [] then [] else [add(a[0], b[0])] + Together(add, a[1..], b[1..])
  }

  lemma MixLinear(x: bv16, y: bv16, d: bv8, e: bv8)
    ensures Mix(Plus(x, y), PlusByte(d, e)) == Plus(Mix(x, d), Mix(y, e))
  {
  }

  lemma BitLinear(x: bv16, y: bv16)
    ensures Bit(Plus(x, y)) == Plus(Bit(x), Bit(y))
  {
  }

  lemma EightTimes<S(!new)>(bit: S -> S, byte: S -> S, plus: (S, S) -> S)
    requires forall s :: byte(s) == bit(bit(bit(bit(bit(bit(bit(bit(s))))))))
    requires forall s, t :: bit(plus(s, t)) == plus(bit(s), bit(t))
    ensures forall s, t :: byte(plus(s, t)) == plus(byte(s), byte(t))
  {
  }

  /** Adding a byte and then doing what is linear is linear. */
  lemma StepLinear<S(!new), D(!new)>(f: (S, D) -> S, g: S -> S, mix: (S, D) -> S, plus: (S, S) -> S, add: (D, D) -> D)
    requires forall s, d :: f(s, d) == g(mix(s, d))
    requires forall s, t :: g(plus(s, t)) == plus(g(s), g(t))
    requires forall s, t, d, e :: mix(plus(s, t), add(d, e)) == plus(mix(s, d), mix(t, e))
    ensures forall s, t, d, e :: f(plus(s, t), add(d, e)) == plus(f(s, d), f(t, e))
  {
  }

  lemma {:induction false} FoldLinear<S(!new), D(!new)>(
    f: (S, D) -> S, plus: (S, S) -> S, add: (D, D) -> D, x: S, y: S, a: seq<D>, b: seq<D>)
    requires |a| == |b| && forall s, t, d, e :: f(plus(s, t), add(d, e)) == plus(f(s, d), f(t, e))
    ensures Fold(f, plus(x, y), Together(add, a, b)) == plus(Fold(f, x, a), Fold(f, y, b))
    decreases |a|
  {
    if a != [] {
      var ab := Together(add, a, b);
      assert ab[0] == add(a[0], b[0]) && ab[1..] == Together(add, a[1..], b[1..]);
      FoldLinear(f, plus, add, f(x, a[0]), f(y, b[0]), a[1..], b[1..]);
    }
  }

  lemma NextLinear()
    ensures forall s, t, d, e :: Next(Plus(s, t), PlusByte(d, e)) == Plus(Next(s, d), Next(t, e))
  {
    forall s, t ensures Bit(Plus(s, t)) == Plus(Bit(s), Bit(t)) { BitLinear(s, t); }
    EightTimes(Bit, Bits8, Plus);
    forall s, t, d, e ensures Mix(Plus(s, t), PlusByte(d, e)) == Plus(Mix(s, d), Mix(t, e)) { MixLinear(s, t, d, e); }
    StepLinear(Next, Bits8, Mix, Plus, PlusByte);
  }

  /** The CRC of the exclusive or of two buffers is the exclusive or of their CRCs. */
  lemma Linear(x: bv16, y: bv16, a: seq<bv8>, b: seq<bv8>)
    requires |a| == |b|
    ensures Serial(Plus(x, y), Together(PlusByte, a, b)) == Plus(Serial(x, a), Serial(y, b))
  {
    NextLinear();
    FoldLinear(Next, Plus, PlusByte, x, y, a, b);
  }

  lemma {:induction false} FoldLast<S, D>(f: (S, D) -> S, s: S, ds: seq<D>, d: D)
    ensures Fold(f, s, ds + [d]) == f(Fold(f, s, ds), d)
    decreases |ds|
  {
    if ds == [] {
      assert [] + [d] == [d];
    } else {
      assert (ds + [d])[0] == ds[0] && (ds + [d])[1..] == ds[1..] + [d];
      FoldLast(f, f(s, ds[0]), ds[1..], d);
    }
  }

  lemma ByDifference<S(!new), D(!new)>(
    f: (S, D) -> S, plus: (S, S) -> S, add: (D, D) -> D, s: S, zero: S, d: D, e: D, diff: D)
    requires forall s, t, d, e :: f(plus(s, t), add(d, e)) == plus(f(s, d), f(t, e))
    requires plus(s, zero) == s && add(d, diff) == e
    ensures f(s, e) == plus(f(s, d), f(zero, diff))
  {
    assert f(plus(s, zero), add(d, diff)) == plus(f(s, d), f(zero, diff));
  }

  lemma ChangeBack(x: bv16, d: bv8, e: bv8)
    ensures PlusByte(d, PlusByte(d, e)) == e && Plus(x, 0) == x
  {
  }

  /** Changing the last byte changes the CRC by the remainder of the change. */
  lemma LastByte(x: bv16, d: bv8, e: bv8)
    ensures Next(x, e) == Plus(Next(x, d), Next(0, PlusByte(d, e)))
  {
    NextLinear();
    ChangeBack(x, d, e);
    ByDifference(Next, Plus, PlusByte, x, 0, d, e, PlusByte(d, e));
  }

  /** The remainder of a byte is its table entry. */
  lemma RemainderIsTable(d: bv8)
    ensures Next(0, d) == Table(d)
  {
    TableIsSerial(d);
    assert Mix(0, d) == d as bv16;
  }

  // ----- what it detects -----

  function HighHalf(x: bv16): bv16 {
    x & 0xFF00
  }

  lemma Bits8Injective(x: bv16, y: bv16)
    requires Bits8(x) == Bits8(y)
    ensures x == y
  {
  }

  /** States that differ only in their low bytes differ in their high bytes eight bits later. */
  lemma HighByteTells(x: bv16, y: bv16)
    requires HighHalf(x) == HighHalf(y) && HighHalf(Bits8(x)) == HighHalf(Bits8(y))
    ensures x == y
  {
  }

  lemma MixKeepsHigh(x: bv16, d: bv8)
    ensures HighHalf(Mix(x, d)) == HighHalf(x)
  {
  }

  lemma MixTellsState(x: bv16, y: bv16, d: bv8)
    requires Mix(x, d) == Mix(y, d)
    ensures x == y
  {
  }

  lemma MixTellsByte(x: bv16, d: bv8, e: bv8)
    requires Mix(x, d) == Mix(x, e)
    ensures d == e
  {
  }

  /** A step that a state and a byte determine is undone by knowing one of them. */
  lemma StepInjective<S(!new), D(!new)>(f: (S, D) -> S, g: S -> S, mix: (S, D) -> S)
    requires forall s, d :: f(s, d) == g(mix(s, d))
    requires forall s, t :: g(s) == g(t) ==> s == t
    requires forall s, t, d :: mix(s, d) == mix(t, d) ==> s == t
    requires forall s, d, e :: mix(s, d) == mix(s, e) ==> d == e
    ensures forall s, t, d :: s != t ==> f(s, d) != f(t, d)
    ensures forall s, d, e :: d != e ==> f(s, d) != f(s, e)
  {
  }

  /** Two steps: the high part of the state in between already tells the first bytes apart. */
  lemma StepTwice<S(!new), D(!new), H(!new)>(
    f: (S, D) -> S, g: S -> S, mix: (S, D) -> S, high: S -> H, x: S, a: D, b: D, c: D, d: D)
    requires forall s, d :: f(s, d) == g(mix(s, d))
    requires forall s, t :: g(s) == g(t) ==> s == t
    requires forall s, d, e :: mix(s, d) == mix(s, e) ==> d == e
    requires forall s, d :: high(mix(s, d)) == high(s)
    requires forall s, t :: high(s) == high(t) && high(g(s)) == high(g(t)) ==> s == t
    requires a != c
    ensures f(f(x, a), b) != f(f(x, c), d)
  {
    var u, v := mix(x, a), mix(x, c);
    assert high(u) == high(v) && u != v;
    assert high(g(u)) != high(g(v));
    assert high(mix(g(u), b)) != high(mix(g(v), d));
  }

  lemma NextInjective()
    ensures forall s, t, d :: s != t ==> Next(s, d) != Next(t, d)
    ensures forall s, d, e :: d != e ==> Next(s, d) != Next(s, e)
  {
    forall s, t | Bits8(s) == Bits8(t) ensures s == t { Bits8Injective(s, t); }
    forall s, t, d | Mix(s, d) == Mix(t, d) ensures s == t { MixTellsState(s, t, d); }
    forall s, d, e | Mix(s, d) == Mix(s, e) ensures d == e { MixTellsByte(s, d, e); }
    StepInjective(Next, Bits8, Mix);
  }

  lemma OtherByte(x: bv16, d: bv8, e: bv8)
    requires d != e
    ensures Next(x, d) != Next(x, e)
  {
    NextInjective();
  }

  /** Two changed bytes in a row cannot cancel out. */
  lemma TwoBytes(x: bv16, a: bv8, b: bv8, c: bv8, d: bv8)
    requires a != c
    ensures Next(Next(x, a), b) != Next(Next(x, c), d)
  {
    forall s, t | Bits8(s) == Bits8(t) ensures s == t { Bits8Injective(s, t); }
    forall s, t | HighHalf(s) == HighHalf(t) && HighHalf(Bits8(s)) == HighHalf(Bits8(t))
      ensures s == t { HighByteTells(s, t); }
    forall s, d, e | Mix(s, d) == Mix(s, e) ensures d == e { MixTellsByte(s, d, e); }
    forall s, d ensures HighHalf(Mix(s, d)) == HighHalf(s) { MixKeepsHigh(s, d); }
    StepTwice(Next, Bits8, Mix, HighHalf, x, a, b, c, d);
  }

  /** Under a step that keeps different states apart a difference stays. */
  lemma {:induction false} FoldInjective<S(!new), D(!new)>(f: (S, D) -> S, x: S, y: S, ds: seq<D>)
    requires x != y && forall a, b, d :: a != b ==> f(a, d) != f(b, d)
    ensures Fold(f, x, ds) != Fold(f, y, ds)
    decreases |ds|
  {
    if ds != [] { FoldInjective(f, f(x, ds[0]), f(y, ds[0]), ds[1..]); }
  }

  lemma DifferenceStays(x: bv16, y: bv16, bytes: seq<bv8>)
    requires x != y
    ensures Serial(x, bytes) != Serial(y, bytes)
  {
    NextInjective();
    FoldInjective(Next, x, y, bytes);
  }

  /** `b` is `a` with a change in one byte or in two neighbouring ones. */
  predicate ChangedAt(a: seq<bv8>, b: seq<bv8>, p: nat) {
    p < |a| == |b| && a != b && forall i :: 0 <= i < |a| && i != p && i != p + 1 ==> a[i] == b[i]
  }

  /** Any change confined to two neighbouring bytes changes the CRC. */
  lemma {:induction false} ShortBurstDetected(crc: bv16, a: seq<bv8>, b: seq<bv8>, p: nat)
    requires ChangedAt(a, b, p)
    ensures Serial(crc, a) != Serial(crc, b)
    decreases |a|
  {
    if p > 0 {
      assert a == [a[0]] + a[1..] && b == [b[0]] + b[1..];
      ShortBurstDetected(Next(crc, a[0]), a[1..], b[1..], p - 1);
    } else if a[0] == b[0] {
      assert a == [a[0]] + a[1..] && b == [b[0]] + b[1..];
      ByteChanged(Next(crc, a[0]), a[1..], b[1..]);
    } else if |a| == 1 {
      ByteChanged(crc, a, b);
    } else {
      TwoBytes(crc, a[0], a[1], b[0], b[1]);
      TailSame(a, b);
      DifferenceStays(Next(Next(crc, a[0]), a[1]), Next(Next(crc, b[0]), b[1]), a[2..]);
      FoldTwo(Next, crc, a);
      FoldTwo(Next, crc, b);
    }
  }

  lemma TailSame(a: seq<bv8>, b: seq<bv8>)
    requires |a| == |b| >= 2 && forall i :: 2 <= i < |a| ==> a[i] == b[i]
    ensures a[2..] == b[2..]
  {
  }

  lemma FoldTwo<S, D>(f: (S, D) -> S, s: S, ds: seq<D>)
    requires |ds| >= 2
    ensures Fold(f, s, ds) == Fold(f, f(f(s, ds[0]), ds[1]), ds[2..])
  {
    assert ds[1..][0] == ds[1] && ds[1..][1..] == ds[2..];
  }

  lemma ByteChanged(crc: bv16, a: seq<bv8>, b: seq<bv8>)
    requires |a| == |b| && a != b && forall i :: 1 <= i < |a| ==> a[i] == b[i]
    ensures Serial(crc, a) != Serial(crc, b)
  {
    assert a[0] != b[0] && a[1..] == b[1..];
    OtherByte(crc, a[0], b[0]);
    DifferenceStays(Next(crc, a[0]), Next(crc, b[0]), a[1..]);
  }
}
