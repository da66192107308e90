// jsoncpp's strings: quoting, finding the end of a literal, and decoding it.
module JsoncppString {
  import opened Wrappers
  import opened Sequences
  import opened Octets
  import opened Unicode

  const QUOTE: Byte := 34
  const BACKSLASH: Byte := 92
  const LETTER_U: Byte := 117
  const REPLACEMENT: nat := 0xFFFD

  // ----- the writer's text -----

  /** The letter of a one-character escape the writer uses, 0 if there is none. */
  function QuoteLetter(b: Byte): Byte {
    if b == 34 then 34
    else if b == 92 then 92
    else if b == 8 then 98
    else if b == 12 then 102
    else if b == 10 then 110
    else if b == 13 then 114
    else if b == 9 then 116
    else 0
  }

  /** appendHex: `\u` and the four digits of toHex16Bit. */
  function Hex(x: nat): Bytes
    requires x < 0x10000
  {
    [BACKSLASH, LETTER_U, HexDigit(x / 4096), HexDigit(x / 256 % 16), HexDigit(x / 16 % 16), HexDigit(x % 16)]
  }

  /** utf8ToCodepoint: the code point and the bytes it takes; what is cut short or too long is replaced. */
  function Utf8ToCodepoint(s: Bytes): (r: (nat, nat))
    requires s != []
    ensures r.0 < 0x200000 && 1 <= r.1 <= |s|
  {
    var b: int := s[0] as int;
    if b < 0x80 then (b, 1)
    else if b < 0xE0 then
      if |s| < 2 then (REPLACEMENT, 1)
      else
        var cp := b % 32 * 64 + s[1] as int % 64;
        (if cp < 0x80 then REPLACEMENT else cp, 2)
    else if b < 0xF0 then
      if |s| < 3 then (REPLACEMENT, 1)
      else
        var cp := b % 16 * 4096 + s[1] as int % 64 * 64 + s[2] as int % 64;
        (if 0xD800 <= cp <= 0xDFFF || cp < 0x800 then REPLACEMENT else cp, 3)
    else if b < 0xF8 then
      if |s| < 4 then (REPLACEMENT, 1)
      else
        var cp := b % 8 * 262144 + s[1] as int % 64 * 4096 + s[2] as int % 64 * 64 + s[3] as int % 64;
        (if cp < 0x10000 then REPLACEMENT else cp, 4)
    else (REPLACEMENT, 1)
  }

  function EscapeCodepoint(cp: nat): Bytes
    requires cp < 0x200000
  {
    if cp < 0x20 then Hex(cp)
    else if cp < 0x80 then [cp as Byte]
    else if cp < 0x10000 then Hex(cp)
    else Hex(0xD800 + (cp - 0x10000) / 1024 % 1024) + Hex(0xDC00 + (cp - 0x10000) % 1024)
  }

  function Escape(s: Bytes, emitUtf8: bool): Bytes
    decreases |s|
  {
    if s == [] then []
    else if QuoteLetter(s[0]) != 0 then [BACKSLASH, QuoteLetter(s[0])] + Escape(s[1..], emitUtf8)
    else if emitUtf8 then (if s[0] < 0x20 then Hex(s[0] as int) else [s[0]]) + Escape(s[1..], emitUtf8)
    else
      var d := Utf8ToCodepoint(s);
      EscapeCodepoint(d.0) + Escape(s[d.1..], emitUtf8)
  }

  function Quoted(s: Bytes, emitUtf8: bool): Bytes {
    [QUOTE] + Escape(s, emitUtf8) + [QUOTE]
  }

  // ----- the reader -----

  /** readString: the quote that ends the token. */
  function TokenEnd(c: Bytes, i: nat): (r: Option<nat>)
    ensures r.Some? ==> i <= r.value < |c|
    decreases |c| - i
  {
    if i >= |c| then None
    else if c[i] == BACKSLASH then TokenEnd(c, i + 2)
    else if c[i] == QUOTE then Some(i)
    else TokenEnd(c, i + 1)
  }

  /** decodeUnicodeEscapeSequence: four hexadecimal digits before the end. */
  function DecodeHex(c: Bytes, p: nat, e: nat): (r: Option<nat>)
    requires p <= e <= |c|
    ensures r.Some? ==> r.value < 0x10000 && p + 4 <= e
  {
    if e - p < 4 then None
    else
      var a, b, d, f := HexValue(c[p]), HexValue(c[p + 1]), HexValue(c[p + 2]), HexValue(c[p + 3]);
      if a.None? || b.None? || d.None? || f.None? then None
      else Some(((a.value * 16 + b.value) * 16 + d.value) * 16 + f.value)
  }

  /** decodeUnicodeCodePoint, behind the `u`: the code point and where it ends. */
  function DecodeCodePoint(c: Bytes, p: nat, e: nat): (r: Option<(nat, nat)>)
    requires p <= e <= |c|
    ensures r.Some? ==> r.value.0 <= 0x10FFFF && p < r.value.1 <= e
  {
    var u := DecodeHex(c, p, e);
    if u.None? then None
    else if u.value < 0xD800 || u.value > 0xDBFF then Some((u.value, p + 4))
    else if e - (p + 4) < 6 || c[p + 4] != BACKSLASH || c[p + 5] != LETTER_U then None
    else
      var v := DecodeHex(c, p + 6, e);
      if v.None? then None else Some((0x10000 + u.value % 1024 * 1024 + v.value % 1024, p + 10))
  }

  function EscapedByte(letter: Byte): Option<Byte> {
    if letter == QUOTE || letter == BACKSLASH || letter == 47 then Some(letter)
    else if letter == 98 then Some(8)
    else if letter == 102 then Some(12)
    else if letter == 110 then Some(10)
    else if letter == 114 then Some(13)
    else if letter == 116 then Some(9)
    else None
  }

  /** decodeString, from `p` to the end of the literal. */
  function Decode(c: Bytes, p: nat, e: nat): Option<Bytes>
    requires p <= e <= |c|
    decreases e - p
  {
    if p == e || c[p] == QUOTE then Some([])
    else if c[p] != BACKSLASH then PutBefore([c[p]], Decode(c, p + 1, e))
    else if p + 1 == e then None
    else if c[p + 1] == LETTER_U then
      var u := DecodeCodePoint(c, p + 2, e);
      if u.None? then None else PutBefore(Utf8(u.value.0), Decode(c, u.value.1, e))
    else
      var b := EscapedByte(c[p + 1]);
      if b.None? then None else PutBefore([b.value], Decode(c, p + 2, e))
  }

  // ----- valid UTF-8 -----

  /** A Unicode scalar value: no surrogate. */
  predicate IsScalar(cp: nat) {
    cp <= 0x10FFFF && !(0xD800 <= cp <= 0xDFFF)
  }

  predicate AllScalar(cps: seq<nat>) {
    forall i {:trigger cps[i]} :: 0 <= i < |cps| ==> IsScalar(cps[i])
  }

  /** The valid UTF-8 strings are these. */
  function Utf8All(cps: seq<nat>): Bytes
    requires AllScalar(cps)
  {
    if cps == [] then [] else Utf8(cps[0]) + Utf8All(cps[1..])
  }

  lemma TwoBytes(cp: nat)
    requires 0x80 <= cp < 0x800
    ensures (0xC0 + cp / 64) % 32 * 64 + (0x80 + cp % 64) % 64 == cp
  {
  }

  lemma ThreeBytes(cp: nat)
    requires cp < 0x10000
    ensures (0xE0 + cp / 4096) % 16 * 4096 + (0x80 + cp / 64 % 64) % 64 * 64 + (0x80 + cp % 64) % 64 == cp
  {
    assert cp / 64 / 64 == cp / 4096;
  }

  lemma FourBytes(cp: nat)
    requires 0x10000 <= cp <= 0x10FFFF
    ensures (0xF0 + cp / 262144) % 8 * 262144 + (0x80 + cp / 4096 % 64) % 64 * 4096 + (0x80 + cp / 64 % 64) % 64 * 64
         + (0x80 + cp % 64) % 64 == cp
  {
    assert cp / 64 / 64 == cp / 4096 && cp / 4096 / 64 == cp / 262144;
  }

  /** The writer's decoder reads back what UTF-8 encodes, whatever follows. */
  lemma Utf8Decodes(cp: nat, rest: Bytes)
    requires IsScalar(cp)
    ensures Utf8ToCodepoint(Utf8(cp) + rest) == (cp, |Utf8(cp)|)
  {
    if cp < 0x80 {
    } else if cp < 0x800 {
      TwoBytes(cp);
    } else if cp < 0x10000 {
      ThreeBytes(cp);
    } else {
      FourBytes(cp);
    }
  }

  /** The first bytes of a character that is cut short: the first is replaced, the next are looked at by themselves. */
  lemma CutShort(cp: nat, n: nat)
    requires IsScalar(cp) && 0 < n < |Utf8(cp)|
    ensures Utf8ToCodepoint(Utf8(cp)[..n]) == (0xFFFD, 1)
  {
  }

  /** A code point in three bytes, needed or not. */
  function InThree(cp: nat): Bytes
    requires cp < 0x10000
  {
    [(0xE0 + cp / 4096) as Byte, (0x80 + cp / 64 % 64) as Byte, (0x80 + cp % 64) as Byte]
  }

  /** In four. */
  function InFour(cp: nat): Bytes
    requires cp < 0x200000
  {
    [(0xF0 + cp / 262144) as Byte, (0x80 + cp / 4096 % 64) as Byte, (0x80 + cp / 64 % 64) as Byte,
     (0x80 + cp % 64) as Byte]
  }

  /** Surrogates and what a shorter form would do for are replaced as a whole. */
  lemma MalformedThree(cp: nat, rest: Bytes)
    requires cp < 0x800 || 0xD800 <= cp <= 0xDFFF
    ensures Utf8ToCodepoint(InThree(cp) + rest) == (0xFFFD, 3)
  {
    ThreeBytes(cp);
    var s := InThree(cp) + rest;
    assert s[0] == InThree(cp)[0] && s[1] == InThree(cp)[1] && s[2] == InThree(cp)[2];
  }

  lemma OverlongFour(cp: nat, rest: Bytes)
    requires cp < 0x10000
    ensures Utf8ToCodepoint(InFour(cp) + rest) == (0xFFFD, 4)
  {
    assert cp / 262144 == 0 && cp / 64 / 64 == cp / 4096;
  }

  lemma OverlongTwo(cp: nat, rest: Bytes)
    requires cp < 0x80
    ensures Utf8ToCodepoint([(0xC0 + cp / 64) as Byte, (0x80 + cp % 64) as Byte] + rest) == (0xFFFD, 2)
  {
  }

  /** No character begins with such a byte. */
  lemma NoLead(s: Bytes)
    requires s != [] && s[0] >= 0xF8
    ensures Utf8ToCodepoint(s) == (0xFFFD, 1)
  {
  }

  /** What the writer makes of one code point when it escapes to ASCII. */
  function ItemText(cp: nat): (r: Bytes)
    requires IsScalar(cp)
    ensures r != []
  {
    if cp < 0x80 && QuoteLetter(cp as Byte) != 0 then [BACKSLASH, QuoteLetter(cp as Byte)] else EscapeCodepoint(cp)
  }

  lemma HighUtf8(cp: nat)
    requires 0x80 <= cp <= 0x10FFFF
    ensures forall i :: 0 <= i < |Utf8(cp)| ==> Utf8(cp)[i] >= 0x80
  {
  }

  /** The writer works code point by code point. */
  lemma {:induction false} EscapeHead(cp: nat, rest: Bytes)
    requires IsScalar(cp)
    ensures Escape(Utf8(cp) + rest, false) == ItemText(cp) + Escape(rest, false)
  {
    var s := Utf8(cp) + rest;
    assert s[0] == Utf8(cp)[0] && s[|Utf8(cp)|..] == rest;
    if cp >= 0x80 { HighUtf8(cp); }
    Utf8Decodes(cp, rest);
  }

  function ItemTexts(cps: seq<nat>): Bytes
    requires AllScalar(cps)
  {
    if cps == [] then [] else ItemText(cps[0]) + ItemTexts(cps[1..])
  }

  lemma {:induction false} EscapeAll(cps: seq<nat>)
    requires AllScalar(cps)
    ensures Escape(Utf8All(cps), false) == ItemTexts(cps)
    decreases |cps|
  {
    if cps != [] {
      EscapeHead(cps[0], Utf8All(cps[1..]));
      EscapeAll(cps[1..]);
    }
  }

  // ----- reading it back -----

  /** From `p` the token goes on to `e`, and what is decoded on the way is `s`. */
  predicate Reads(c: Bytes, p: nat, e: nat, s: Bytes) {
    p <= e <= |c| && TokenEnd(c, p) == Some(e) && Decode(c, p, e) == Some(s)
  }

  lemma ReadsOneMore(c: Bytes, p: nat, q: nat, e: nat, first: Bytes, s: Bytes)
    requires p <= q && Reads(c, q, e, s)
    requires TokenEnd(c, p) == TokenEnd(c, q) && Decode(c, p, e) == PutBefore(first, Decode(c, q, e))
    ensures Reads(c, p, e, first + s)
  {
  }

  // ----- strings that are not valid UTF-8 -----

  /** The code point a reader sees where the writer saw `cp`: twenty bits above the first plane. */
  function Seen(cp: nat): (r: nat)
    requires cp < 0x200000 && !(0xD800 <= cp <= 0xDFFF)
    ensures IsScalar(r)
  {
    if cp < 0x10000 then cp else 0x10000 + (cp - 0x10000) % 0x100000
  }

  /** The code points of any byte string, with replacements for what is malformed. */
  function CodePoints(s: Bytes): (cps: seq<nat>)
    ensures AllScalar(cps)
    decreases |s|
  {
    if s == [] then []
    else
      var d := Utf8ToCodepoint(s);
      NoSurrogate(s);
      [Seen(d.0)] + CodePoints(s[d.1..])
  }

  lemma NoSurrogate(s: Bytes)
    requires s != []
    ensures !(0xD800 <= Utf8ToCodepoint(s).0 <= 0xDFFF)
    ensures Utf8ToCodepoint(s).0 < 0x80 ==> Utf8ToCodepoint(s) == (s[0] as int, 1)
    ensures s[0] < 0x80 ==> Utf8ToCodepoint(s) == (s[0] as int, 1)
  {
  }

  lemma SeenText(cp: nat)
    requires cp < 0x200000 && !(0xD800 <= cp <= 0xDFFF)
    ensures EscapeCodepoint(Seen(cp)) == EscapeCodepoint(cp)
  {
    if cp >= 0x10000 {
      TwentyBits(cp - 0x10000);
    }
  }

  lemma TwentyBits(x: nat)
    ensures x % 0x100000 / 1024 % 1024 == x / 1024 % 1024 && x % 0x100000 % 1024 == x % 1024
  {
    var q, r := x / 0x100000, x % 0x100000;
    assert x == 1024 * (1024 * q) + r;
    assert x / 1024 == 1024 * q + r / 1024;
  }

  lemma {:induction false} EscapeByCodePoints(s: Bytes)
    ensures Escape(s, false) == ItemTexts(CodePoints(s))
    decreases |s|
  {
    if s != [] {
      var d := Utf8ToCodepoint(s);
      NoSurrogate(s);
      SeenText(d.0);
      EscapeByCodePoints(s[d.1..]);
    }
  }

  function ByteText(b: Byte): Bytes {
    if QuoteLetter(b) != 0 then [BACKSLASH, QuoteLetter(b)] else if b < 0x20 then Hex(b as int) else [b]
  }

  // ----- the writer's loop -----

  /** isprint in the C locale. */
  predicate IsPrint(b: Byte) {
    32 <= b <= 126
  }

  predicate RequiresQuoting(b: Byte) {
    b == BACKSLASH || b == QUOTE || !IsPrint(b)
  }

  lemma {:induction false} PlainEscape(s: Bytes, emitUtf8: bool)
    requires forall i {:trigger s[i]} :: 0 <= i < |s| ==> !RequiresQuoting(s[i])
    ensures Escape(s, emitUtf8) == s
    decreases |s|
  {
    if s != [] {
      PlainEscape(s[1..], emitUtf8);
      assert s == [s[0]] + s[1..];
    }
  }

  /** isAnyCharRequiredQuoting. */
  method AnyRequiresQuoting(value: Bytes) returns (any: bool)
    ensures any == exists i :: 0 <= i < |value| && RequiresQuoting(value[i])
  {
    any := false;
    var i := 0;
    while i < |value| && !any
      invariant 0 <= i <= |value|
      invariant any == exists j :: 0 <= j < i && RequiresQuoting(value[j])
      decreases |value| - i, !any
    {
      if RequiresQuoting(value[i]) {
        any := true;
      }
      i := i + 1;
    }
  }

  /** One piece moves from what is left to what is done. */
  lemma PieceDone(done: Bytes, piece: Bytes, left: Bytes, rest: Bytes, whole: Bytes)
    requires done + left == whole && left == piece + rest
    ensures (done + piece) + rest == whole
  {
    Regroup(done, piece, rest);
  }

  lemma FromStart(value: Bytes, emitUtf8: bool)
    ensures Escape(value[0..], emitUtf8) == Escape(value, emitUtf8) && Escape(value[|value|..], emitUtf8) == []
  {
    assert value[0..] == value;
  }

  /** The walk over the value. */
  method EscapeWalk(value: Bytes, emitUtf8: bool) returns (result: Bytes)
    ensures result == [QUOTE] + Escape(value, emitUtf8)
  {
    result := [QUOTE];
    ghost var left := Escape(value, emitUtf8);
    FromStart(value, emitUtf8);
    var c := 0;
    while c != |value|
      invariant 0 <= c <= |value| && left == Escape(value[c..], emitUtf8)
      invariant result + left == [QUOTE] + Escape(value, emitUtf8)
      decreases |value| - c
    {
      var item, n := EscapeNext(value, c, emitUtf8);
      ghost var rest := Escape(value[c + n..], emitUtf8);
      PieceDone(result, item, left, rest, [QUOTE] + Escape(value, emitUtf8));
      result, c, left := result + item, c + n, rest;
    }
    AppendNothing(result);
  }

  /** valueToQuotedStringN: nothing to escape, or a walk over the value. */
  method ValueToQuotedString(value: Bytes, emitUtf8: bool) returns (result: Bytes)
    ensures result == Quoted(value, emitUtf8)
  {
    var any := AnyRequiresQuoting(value);
    if any {
      result := EscapeWalk(value, emitUtf8);
      result := result + [QUOTE];
    } else {
      PlainEscape(value, emitUtf8);
      result := [QUOTE] + value + [QUOTE];
    }
  }

  /** One turn of the walk: what is appended, and how many bytes are taken. */
  method EscapeNext(value: Bytes, c: nat, emitUtf8: bool) returns (item: Bytes, n: nat)
    requires c < |value|
    ensures 1 <= n <= |value| - c
    ensures Escape(value[c..], emitUtf8) == item + Escape(value[c + n..], emitUtf8)
  {
    assert value[c..][0] == value[c] && value[c..][1..] == value[c + 1..];
    n := 1;
    if QuoteLetter(value[c]) != 0 {
      item := [BACKSLASH, QuoteLetter(value[c])];
    } else if emitUtf8 {
      item := if value[c] < 0x20 then Hex(value[c] as int) else [value[c]];
    } else {
      var d := Utf8ToCodepoint(value[c..]);
      n := d.1;
      assert value[c..][n..] == value[c + n..];
      item := EscapeCodepoint(d.0);
    }
  }

  // ----- the reader's loops -----

  class OurReader {
    const document: Bytes
    var current: nat

    constructor (document: Bytes)
      ensures this.document == document && current == 0
    {
      this.document := document;
      current := 0;
    }

    method GetNextChar() returns (c: Byte)
      requires current <= |document|
      modifies this
      ensures if old(current) == |document| then c == 0 && current == old(current)
              else c == document[old(current)] && current == old(current) + 1
    {
      if current == |document| {
        c := 0;
      } else {
        c := document[current];
        current := current + 1;
      }
    }

    /** readString, behind the opening quote: it stops behind the closing one. */
    method ReadString() returns (ok: bool)
      requires current <= |document|
      modifies this
      ensures current <= |document| && ok == TokenEnd(document, old(current)).Some?
      ensures ok ==> TokenEnd(document, old(current)) == Some(current - 1)
    {
      var c: Byte := 0;
      while current != |document| && c != QUOTE
        invariant old(current) <= current <= |document|
        invariant c != QUOTE ==> TokenEnd(document, old(current)) == TokenEnd(document, current)
        invariant c == QUOTE ==> current > 0 && TokenEnd(document, old(current)) == Some(current - 1)
        decreases |document| - current, c != QUOTE
      {
        c := GetNextChar();
        if c == BACKSLASH {
          var _ := GetNextChar();
        }
      }
      ok := c == QUOTE;
    }

    /** decodeUnicodeEscapeSequence. */
    method DecodeEscapeSequence(p: nat, e: nat) returns (unicode: Option<nat>)
      requires p <= e <= |document|
      ensures unicode == DecodeHex(document, p, e)
    {
      if e - p < 4 {
        return None;
      }
      var value := 0;
      var index := 0;
      while index < 4
        invariant 0 <= index <= 4
        invariant index > 0 ==> HexValue(document[p]).Some?
        invariant index > 1 ==> HexValue(document[p + 1]).Some?
        invariant index > 2 ==> HexValue(document[p + 2]).Some?
        invariant index == 0 ==> value == 0
        invariant index == 1 ==> value == HexValue(document[p]).value
        invariant index == 2 ==> value == HexValue(document[p]).value * 16 + HexValue(document[p + 1]).value
        invariant index == 3 ==>
          value == (HexValue(document[p]).value * 16 + HexValue(document[p + 1]).value) * 16
          + HexValue(document[p + 2]).value
        invariant index == 4 ==> DecodeHex(document, p, e) == Some(value)
      {
        var digit := HexValue(document[p + index]);
        value := value * 16;
        if digit.None? {
          return None;
        }
        value := value + digit.value;
        index := index + 1;
      }
      unicode := Some(value);
    }

    /** decodeUnicodeCodePoint. */
    method DecodeUnicodeCodePoint(p: nat, e: nat) returns (decoded: Option<(nat, nat)>)
      requires p <= e <= |document|
      ensures decoded == DecodeCodePoint(document, p, e)
    {
      decoded := None;
      var first := DecodeEscapeSequence(p, e);
      if first.Some? {
        if 0xD800 <= first.value <= 0xDBFF {
          if e - (p + 4) >= 6 && document[p + 4] == BACKSLASH && document[p + 5] == LETTER_U {
            var second := DecodeEscapeSequence(p + 6, e);
            if second.Some? {
              decoded := Some((0x10000 + first.value % 1024 * 1024 + second.value % 1024, p + 10));
            }
          }
        } else {
          decoded := Some((first.value, p + 4));
        }
      }
    }

    /** decodeString, between the quotes of a token. */
    method DecodeString(start: nat, e: nat) returns (ok: bool, decoded: Bytes)
      requires start <= e <= |document|
      ensures ok == Decode(document, start, e).Some?
      ensures ok ==> Decode(document, start, e) == Some(decoded)
    {
      ok, decoded := true, [];
      var p := start;
      NothingBefore(Decode(document, start, e));
      while ok && p != e
        invariant start <= p <= e
        invariant ok ==> Decode(document, start, e) == PutBefore(decoded, Decode(document, p, e))
        invariant !ok ==> Decode(document, start, e).None?
        decreases e - p, ok
      {
        if document[p] == QUOTE {
          break;
        }
        var piece, next;
        ok, piece, next := DecodePiece(p, e);
        if ok {
          TwiceBefore(decoded, piece, Decode(document, next, e));
          decoded, p := decoded + piece, next;
        }
      }
      assert decoded + [] == decoded;
    }

    /** One byte or one escape of the loop. */
    method DecodePiece(p: nat, e: nat) returns (ok: bool, piece: Bytes, next: nat)
      requires p < e <= |document| && document[p] != QUOTE
      ensures !ok ==> Decode(document, p, e).None?
      ensures ok ==> p < next <= e && Decode(document, p, e) == PutBefore(piece, Decode(document, next, e))
    {
      ok, piece, next := true, [document[p]], p + 1;
      if document[p] == BACKSLASH {
        if p + 1 == e {
          ok := false;
        } else if document[p + 1] == LETTER_U {
          var unicode := DecodeUnicodeCodePoint(p + 2, e);
          ok := unicode.Some?;
          if ok {
            piece, next := Utf8(unicode.value.0), unicode.value.1;
          }
        } else {
          var b := EscapedByte(document[p + 1]);
          ok := b.Some?;
          if ok {
            piece, next := [b.value], p + 2;
          }
        }
      }
    }
  }
}
