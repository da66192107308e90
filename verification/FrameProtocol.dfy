// The frames between the desktop tool and the device: building, receiving and checking them.
module FrameProtocol {
  import opened Wrappers
  import opened Octets
  import opened Crc16

  const SEND_HEAD: Byte := 0x5A
  const RECV_HEAD: Byte := 0x5B
  const HEAD_SIZE: nat := 3
  const CRC_SIZE: nat := 2
  const TIMEOUT: nat := 3000

  const RT_OK := 0
  const RT_TIMEOUT := -2
  const RT_CRC_ERROR := -3
  const RT_FAIL := -4

  // ----- frames -----

  /** Two bytes, high byte first. */
  function Joined(hi: Byte, lo: Byte): nat {
    256 * hi as int + lo as int
  }

  function High(x: bv16): Byte {
    (x >> 8) as int as Byte
  }

  function Low(x: bv16): Byte {
    (x & 0xFF) as int as Byte
  }

  /** calculate_crc. */
  function Checksum(bytes: Bytes): bv16 {
    if bytes == [] then 0 else Serial(0xFFFF, Words(bytes))
  }

  /** calculate_crc gives the check value of CRC-16 with all ones to start from. */
  lemma ChecksumCheck()
    ensures Checksum([49, 50, 51, 52, 53, 54, 55, 56, 57]) == 0x4B37
  {
    var b: Bytes := [49, 50, 51, 52, 53, 54, 55, 56, 57];
    assert Words(b) == [49, 50, 51, 52, 53, 54, 55, 56, 57];
    CheckValue();
  }

  /** The length a frame announces, with head and CRC. */
  function Announced(rx: Bytes): nat
    requires |rx| >= HEAD_SIZE
  {
    Joined(rx[1], rx[2]) + HEAD_SIZE + CRC_SIZE
  }

  /** All announced bytes are there and the CRC over everything between the head byte and the CRC is right. */
  predicate FrameOk(rx: Bytes) {
    |rx| >= HEAD_SIZE
    && var n := Announced(rx); n <= |rx| && Joined(rx[n - 2], rx[n - 1]) == Checksum(rx[1..n - 2]) as int
  }

  /** A frame: head, length, body, CRC with its high byte first. */
  function Frame(head: Byte, size: nat, body: Bytes): Bytes
    requires size < 0x10000
  {
    var covered := [(size / 256) as Byte, (size % 256) as Byte] + body;
    [head] + covered + [High(Checksum(covered)), Low(Checksum(covered))]
  }

  lemma JoinedBack(x: bv16)
    ensures Joined(High(x), Low(x)) == x as int
  {
  }

  lemma SameNumber(x: bv16, y: bv16)
    requires x as int == y as int
    ensures x == y
  {
    assert x as int as bv16 == y as int as bv16;
    WordBack(x);
    WordBack(y);
  }

  lemma WordBack(x: bv16)
    ensures x as int as bv16 == x
  {
  }

  /** A frame that announces the body it carries passes the receiver's test. */
  lemma FrameIsOk(head: Byte, body: Bytes)
    requires |body| < 0x10000
    ensures var f := Frame(head, |body|, body); FrameOk(f) && |f| == Announced(f) && f[0] == head
  {
    var covered := [(|body| / 256) as Byte, (|body| % 256) as Byte] + body;
    SizeBack(|body|);
    ChecksummedOk(head, covered);
  }

  lemma ChecksummedOk(head: Byte, covered: Bytes)
    requires |covered| >= 2 && Joined(covered[0], covered[1]) == |covered| - 2
    ensures var f := [head] + covered + [High(Checksum(covered)), Low(Checksum(covered))];
      FrameOk(f) && |f| == Announced(f) && f[0] == head
  {
    JoinedBack(Checksum(covered));
    AssembledOk(head, covered, High(Checksum(covered)), Low(Checksum(covered)));
  }

  lemma SizeBack(n: nat)
    requires n < 0x10000
    ensures Joined((n / 256) as Byte, (n % 256) as Byte) == n
  {
  }

  lemma AssembledOk(head: Byte, covered: Bytes, hi: Byte, lo: Byte)
    requires |covered| >= 2 && Joined(covered[0], covered[1]) == |covered| - 2
         && Joined(hi, lo) == Checksum(covered) as int
    ensures var f := [head] + covered + [hi, lo]; FrameOk(f) && |f| == Announced(f) && f[0] == head
  {
    FrameShape(head, covered, hi, lo);
  }

  lemma FrameShape(head: Byte, covered: Bytes, hi: Byte, lo: Byte)
    requires |covered| >= 2
    ensures var f := [head] + covered + [hi, lo];
      |f| == |covered| + 3 && f[0] == head && f[1] == covered[0] && f[2] == covered[1]
      && f[1..|f| - 2] == covered && f[|f| - 2] == hi && f[|f| - 1] == lo
  {
  }

  /** `g` is `f` with a change in one byte or in two neighbouring ones, none of them in the header or the CRC. */
  predicate BodyChangedAt(f: Bytes, g: Bytes, p: nat) {
    |f| == |g| && f != g && HEAD_SIZE <= p && p + 1 < |f| - CRC_SIZE
    && forall i :: 0 <= i < |f| && i != p && i != p + 1 ==> f[i] == g[i]
  }

  /** Such a change makes a frame fail the test. */
  lemma AlteredFrame(f: Bytes, g: Bytes, p: nat)
    requires FrameOk(f) && |f| == Announced(f) && BodyChangedAt(f, g, p)
    ensures Announced(g) == |f| && !FrameOk(g)
  {
    var n := |f|;
    assert g[1] == f[1] && g[2] == f[2] && g[n - 2] == f[n - 2] && g[n - 1] == f[n - 1];
    AlteredChecksum(f, g, p);
    if Checksum(f[1..n - 2]) as int == Checksum(g[1..n - 2]) as int {
      SameNumber(Checksum(f[1..n - 2]), Checksum(g[1..n - 2]));
    }
  }

  lemma AlteredChecksum(f: Bytes, g: Bytes, p: nat)
    requires BodyChangedAt(f, g, p)
    ensures Checksum(f[1..|f| - 2]) != Checksum(g[1..|f| - 2])
  {
    InnerChange(f, g, p);
    ShortBurstDetected(0xFFFF, Words(f[1..|f| - 2]), Words(g[1..|f| - 2]), p - 1);
  }

  lemma InnerChange(f: Bytes, g: Bytes, p: nat)
    requires BodyChangedAt(f, g, p)
    ensures ChangedAt(Words(f[1..|f| - 2]), Words(g[1..|f| - 2]), p - 1)
  {
    var a, b := Words(f[1..|f| - 2]), Words(g[1..|f| - 2]);
    assert forall i :: 0 <= i < |a| ==> a[i] == f[i + 1] as bv8 && b[i] == g[i + 1] as bv8;
    var i :| 0 <= i < |f| && f[i] != g[i];
    DifferentBytes(f[i], g[i]);
    assert a[i - 1] != b[i - 1];
  }

  // ----- a change across the border of body and CRC -----

  lemma SameBytes(a: Byte, b: Byte)
    ensures a == b <==> a as bv8 == b as bv8
  {
    if a != b { DifferentBytes(a, b); }
  }

  lemma JoinedUnique(a: Byte, b: Byte, c: Byte, d: Byte, x: int)
    requires Joined(c, d) == x
    ensures Joined(a, b) == x <==> a == c && b == d
  {
  }

  lemma FieldsOf(x: bv16, hi: Byte, lo: Byte)
    ensures Joined(hi, lo) == x as int <==> hi == High(x) && lo == Low(x)
  {
    JoinedBack(x);
    JoinedUnique(hi, lo, High(x), Low(x), x as int);
  }

  lemma HighWord(x: bv16)
    ensures High(x) as bv8 == (x >> 8) as bv8
  {
  }

  lemma LowWord(x: bv16)
    ensures Low(x) as bv8 == (x & 0xFF) as bv8
  {
  }

  lemma PlusParts(c: bv16, t: bv16)
    ensures (Plus(c, t) >> 8) as bv8 == ((c >> 8) as bv8) ^ ((t >> 8) as bv8)
    ensures (Plus(c, t) & 0xFF) as bv8 == (c & 0xFF) as bv8 <==> t & 0xFF == 0
  {
  }

  lemma SameHighByte(h: Byte, x: bv16)
    ensures h == High(x) <==> h as bv8 == (x >> 8) as bv8
  {
    SameBytes(h, High(x));
    HighWord(x);
  }

  lemma SameLowByte(x: bv16, y: bv16)
    ensures Low(x) == Low(y) <==> (x & 0xFF) as bv8 == (y & 0xFF) as bv8
  {
    SameBytes(Low(x), Low(y));
    LowWord(x);
    LowWord(y);
  }

  lemma HighPlus(c: bv16, t: bv16, h: Byte)
    ensures h == High(Plus(c, t)) <==> h as bv8 == (High(c) as bv8) ^ ((t >> 8) as bv8)
  {
    SameHighByte(h, Plus(c, t));
    HighWord(c);
    PlusParts(c, t);
  }

  lemma LowPlus(c: bv16, t: bv16)
    ensures Low(Plus(c, t)) == Low(c) <==> t & 0xFF == 0
  {
    SameLowByte(Plus(c, t), c);
    PlusParts(c, t);
  }

  lemma AfterChange(c: bv16, t: bv16, hi: Byte, lo: Byte, h: Byte)
    requires Joined(hi, lo) == c as int
    ensures Joined(h, lo) == Plus(c, t) as int <==> Turns(t, hi, h)
  {
    FieldsOf(c, hi, lo);
    FieldsOf(Plus(c, t), h, lo);
    HighPlus(c, t, h);
    LowPlus(c, t);
  }

  lemma ChecksumLast(front: Bytes, d: Byte)
    ensures Checksum(front + [d]) == Next(Serial(0xFFFF, Words(front)), d as bv8)
  {
    assert Words(front + [d]) == Words(front) + [d as bv8];
    FoldLast(Next, 0xFFFF, Words(front), d as bv8);
  }

  lemma ChecksumChange(front: Bytes, d: Byte, e: Byte)
    ensures Checksum(front + [e]) == Plus(Checksum(front + [d]), Table(PlusByte(d as bv8, e as bv8)))
  {
    var x := Serial(0xFFFF, Words(front));
    ChecksumLast(front, d);
    ChecksumLast(front, e);
    LastByte(x, d as bv8, e as bv8);
    RemainderIsTable(PlusByte(d as bv8, e as bv8));
  }

  /** `g` is `f` with other values in the last byte of the body and the first byte of the CRC. */
  predicate Straddles(f: Bytes, g: Bytes) {
    |f| == |g| > HEAD_SIZE + CRC_SIZE && forall i :: 0 <= i < |f| && i != |f| - 3 && i != |f| - 2 ==> f[i] == g[i]
  }

  /** `t` has no low part, and its high part turns `hi` into `h`. */
  predicate Turns(t: bv16, hi: Byte, h: Byte) {
    t & 0xFF == 0 && h as bv8 == (hi as bv8) ^ ((t >> 8) as bv8)
  }

  /** The table entry for the change from `d` to `e` turns `hi` into `h`. */
  predicate Cancels(d: Byte, e: Byte, hi: Byte, h: Byte) {
    Turns(Table(PlusByte(d as bv8, e as bv8)), hi, h)
  }

  lemma FieldsAfter(front: Bytes, d: Byte, e: Byte, hi: Byte, lo: Byte, h: Byte)
    requires Joined(hi, lo) == Checksum(front + [d]) as int
    ensures Joined(h, lo) == Checksum(front + [e]) as int <==> Cancels(d, e, hi, h)
  {
    ChecksumChange(front, d, e);
    AfterChange(Checksum(front + [d]), Table(PlusByte(d as bv8, e as bv8)), hi, lo, h);
  }

  lemma StraddledParts(f: Bytes, g: Bytes)
    requires Straddles(f, g)
    ensures var n := |f|; f[1..n - 2] == f[1..n - 3] + [f[n - 3]] && g[1..n - 2] == f[1..n - 3] + [g[n - 3]]
    ensures g[1] == f[1] && g[2] == f[2] && g[|f| - 1] == f[|f| - 1]
  {
  }

  /** A change across the border of body and CRC escapes if and only if its two parts cancel out. */
  lemma StraddlingChange(f: Bytes, g: Bytes)
    requires FrameOk(f) && |f| == Announced(f) && Straddles(f, g)
    ensures var n := |f|; FrameOk(g) <==> Cancels(f[n - 3], g[n - 3], f[n - 2], g[n - 2])
  {
    var n := |f|;
    StraddledParts(f, g);
    FieldsAfter(f[1..n - 3], f[n - 3], g[n - 3], f[n - 2], f[n - 1], g[n - 2]);
  }

  function Flipped(b: Byte, bits: bv8): Byte {
    ((b as bv8) ^ bits) as int as Byte
  }

  lemma FlippedWord(b: Byte, bits: bv8)
    ensures Flipped(b, bits) as bv8 == (b as bv8) ^ bits
  {
  }

  lemma FlippedDiffers(b: Byte, bits: bv8)
    requires bits != 0
    ensures Flipped(b, bits) != b
  {
    FlippedWord(b, bits);
  }

  lemma FlippedTurns(hi: Byte, h: Byte)
    requires h as bv8 == (hi as bv8) ^ 5
    ensures Turns(0x0500, hi, h)
  {
  }

  /** The change of a body byte in the bits of 12 and its table entry. */
  lemma TwelveCancels(d: Byte)
    ensures Table(PlusByte(d as bv8, Flipped(d, 12) as bv8)) == 0x0500
  {
    FlippedWord(d, 12);
    TwelveApart(d as bv8);
  }

  lemma TwelveApart(d: bv8)
    ensures PlusByte(d, d ^ 12) == 12 && Table(12) == 0x0500
  {
  }

  lemma FlipsCancel(d: Byte, hi: Byte) returns (e: Byte, h: Byte)
    ensures Cancels(d, e, hi, h) && e != d
  {
    e, h := Flipped(d, 12), Flipped(hi, 5);
    FlippedDiffers(d, 12);
    FlippedWord(hi, 5);
    FlippedTurns(hi, h);
    TwelveCancels(d);
  }

  lemma StraddleWith(f: Bytes, e: Byte, h: Byte) returns (g: Bytes)
    requires |f| > HEAD_SIZE + CRC_SIZE
    ensures Straddles(f, g) && g[|f| - 3] == e && g[|f| - 2] == h
  {
    g := f[|f| - 3 := e][|f| - 2 := h];
  }

  /** Every good frame with a body has an altered one that the test still accepts. */
  lemma StraddlingEscapes(f: Bytes) returns (g: Bytes)
    requires FrameOk(f) && |f| == Announced(f) > HEAD_SIZE + CRC_SIZE
    ensures g != f && Straddles(f, g) && FrameOk(g)
  {
    var e, h := FlipsCancel(f[|f| - 3], f[|f| - 2]);
    g := StraddleWith(f, e, h);
    StraddlingChange(f, g);
  }

  // ----- sending -----

  /** What CreateSendBuffer puts behind the length field, up to the CRC. */
  function Body(nId: Byte, random: bv16, payload: Bytes): Bytes {
    [nId, High(random), Low(random)] + payload
  }

  /** The parts of a frame: head, size, id, packet number, payload and checksum, numbers with the high byte first. */
  predicate HasFields(f: Bytes, head: Byte, size: nat, nId: Byte, packet: nat, payload: Bytes, checksum: nat) {
    var n := |f|;
    && n == |payload| + 8 && f[0] == head && Joined(f[1], f[2]) == size
    && f[3] == nId && Joined(f[4], f[5]) == packet && f[6..n - 2] == payload
    && Joined(f[n - 2], f[n - 1]) == checksum
  }

  lemma FieldsThere(head: Byte, a: Byte, b: Byte, nId: Byte, c: Byte, d: Byte, payload: Bytes, hi: Byte, lo: Byte)
    ensures var f := [head] + ([a, b] + ([nId, c, d] + payload)) + [hi, lo];
      HasFields(f, head, Joined(a, b), nId, Joined(c, d), payload, Joined(hi, lo))
  {
  }

  lemma ChecksummedFields(head: Byte, a: Byte, b: Byte, nId: Byte, c: Byte, d: Byte, payload: Bytes, covered: Bytes)
    requires covered == [a, b] + ([nId, c, d] + payload)
    ensures var f := [head] + covered + [High(Checksum(covered)), Low(Checksum(covered))];
      && HasFields(f, head, Joined(a, b), nId, Joined(c, d), payload, Checksum(covered) as int)
      && f[1..|f| - 2] == covered
  {
    JoinedBack(Checksum(covered));
    FrameShape(head, covered, High(Checksum(covered)), Low(Checksum(covered)));
    FieldsThere(head, a, b, nId, c, d, payload, High(Checksum(covered)), Low(Checksum(covered)));
  }

  /** Where the receiver of a sent frame finds its parts. */
  lemma SentFields(nId: Byte, random: bv16, payload: Bytes)
    requires |payload| + 3 < 0x10000
    ensures var f := Frame(SEND_HEAD, |payload| + 3, Body(nId, random, payload));
      HasFields(f, 0x5A, |payload| + 3, nId, random as int, payload, Checksum(f[1..|f| - 2]) as int)
  {
    var size := |payload| + 3;
    var a, b := (size / 256) as Byte, (size % 256) as Byte;
    SizeBack(size);
    JoinedBack(random);
    ChecksummedFields(SEND_HEAD, a, b, nId, High(random), Low(random), payload, [a, b] + Body(nId, random, payload));
  }

  /** The bytes written before the CRC: the head, the length field and the body. */
  method FillFrame(tx: array<Byte>, nId: Byte, random: bv16, nSize: nat, pStart: Option<Bytes>) returns (total: nat)
    requires nSize + 8 <= tx.Length < 0x10000
    requires pStart.Some? ==> nSize <= |pStart.value|
    modifies tx
    ensures total == 6 + if pStart.Some? then nSize else 0
    ensures tx[0] == SEND_HEAD
    ensures tx[1..total] == [((nSize + 3) / 256) as Byte, ((nSize + 3) % 256) as Byte]
                            + Body(nId, random, if pStart.Some? then pStart.value[..nSize] else [])
  {
    var nSendSize := nSize + 3;
    tx[0], tx[1], tx[2] := SEND_HEAD, (nSendSize / 256) as Byte, (nSendSize % 256) as Byte;
    tx[3], tx[4], tx[5] := nId, High(random), Low(random);
    total := 6;
    ghost var front := tx[1..6];
    if nSize != 0 && pStart.Some? {
      var i := 0;
      while i < nSize
        invariant 0 <= i <= nSize && total == 6 + i
        invariant tx[0] == SEND_HEAD && tx[1..total] == front + pStart.value[..i]
      {
        tx[total] := pStart.value[i];
        total := total + 1;
        i := i + 1;
      }
    }
  }

  /** The frame and its CRC. */
  method BuildFrame(tx: array<Byte>, nId: Byte, random: bv16, nSize: nat, pStart: Option<Bytes>) returns (total: nat)
    requires nSize + 8 <= tx.Length < 0x10000
    requires pStart.Some? ==> nSize <= |pStart.value|
    modifies tx
    ensures total <= tx.Length
      && tx[..total] == Frame(SEND_HEAD, nSize + 3,
                              Body(nId, random, if pStart.Some? then pStart.value[..nSize] else []))
  {
    total := FillFrame(tx, nId, random, nSize, pStart);
    ghost var front := tx[..total];
    assert front == [tx[0]] + tx[1..total];
    var crc := Compute(0xFFFF, tx, 1, total - 1);
    tx[total] := High(crc);
    total := total + 1;
    tx[total] := Low(crc);
    total := total + 1;
    assert tx[..total] == front + [High(crc), Low(crc)];
  }

  /** The data alone, as it is. */
  method WriteThrough(tx: array<Byte>, nSize: nat, pStart: Bytes) returns (total: nat)
    requires nSize <= tx.Length && nSize <= |pStart|
    modifies tx
    ensures total == nSize && tx[..total] == pStart[..nSize]
  {
    forall i | 0 <= i < nSize {
      tx[i] := pStart[i];
    }
    total := nSize;
  }

  /**
   * CreateSendBuffer: the frame of an id, a packet number and a payload, or, written through, the payload
   * alone. Given a size but no data it builds a frame that announces more than it carries.
   */
  method CreateSendBuffer(tx: array<Byte>, nId: Byte, random: bv16, nSize: nat, pStart: Option<Bytes>,
                          bWriteThrough: bool)
    returns (total: nat)
    requires if bWriteThrough then pStart.Some? && nSize <= tx.Length else nSize + 8 <= tx.Length < 0x10000
    requires pStart.Some? ==> nSize <= |pStart.value|
    modifies tx
    ensures total <= tx.Length
    ensures tx[..total] == if bWriteThrough then pStart.value[..nSize]
      else Frame(SEND_HEAD, nSize + 3, Body(nId, random, if pStart.Some? then pStart.value[..nSize] else []))
  {
    if bWriteThrough {
      total := WriteThrough(tx, nSize, pStart.value);
    } else {
      total := BuildFrame(tx, nId, random, nSize, pStart);
    }
  }

  /** With its data present the frame built is one the receiving side's test accepts. */
  lemma SentFrameOk(nId: Byte, random: bv16, payload: Bytes)
    requires |payload| + 3 < 0x10000
    ensures var f := Frame(SEND_HEAD, |payload| + 3, Body(nId, random, payload)); FrameOk(f) && |f| == Announced(f)
  {
    FrameIsOk(SEND_HEAD, Body(nId, random, payload));
  }
}
