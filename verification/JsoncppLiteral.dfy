// Which string literals jsoncpp's reader takes, what they stand for, and which of them its writer chooses.
module JsoncppLiteral {
  import opened Wrappers
  import opened Sequences
  import opened Octets
  import opened Unicode
  import opened JsoncppString
  import E = JsonEscapes

  // ----- pieces -----

  /** What the reader takes: behind a high surrogate any other escape will do, and a low one may stand alone. */
  predicate Good(x: E.Piece) {
    match x
    case Plain(b) => b != QUOTE && b != BACKSLASH
    case Letter(i) => i < |E.LETTERS|
    case Unit(d) => E.FourDigits(d) && !(0xD800 <= E.Spelled(d) <= 0xDBFF)
    case Pair(h, l) => E.FourDigits(h) && E.FourDigits(l) && 0xD800 <= E.Spelled(h) <= 0xDBFF
  }

  /** What it stands for; of a pair the lowest ten bits of each half count. */
  function Value(x: E.Piece): Bytes
    requires Good(x)
  {
    match x
    case Plain(b) => [b]
    case Letter(i) => [E.MEANINGS[i]]
    case Unit(d) => Utf8(E.Spelled(d))
    case Pair(h, l) => Utf8(0x10000 + E.Spelled(h) % 1024 * 1024 + E.Spelled(l) % 1024)
  }

  /** What RFC 8259 allows stands for what it says. */
  lemma StandardPiece(x: E.Piece)
    requires E.WellFormed(x)
    ensures Good(x) && Value(x) == E.Meaning(x)
  {
    if x.Pair? { E.Halves(E.Spelled(x.high), E.Spelled(x.low)); }
  }

  lemma HexRead(c: Bytes, p: nat, e: nat, d: Bytes)
    requires E.FourDigits(d) && TextAt(c, p, d) && p + 4 <= e <= |c|
    ensures DecodeHex(c, p, e) == Some(E.Spelled(d))
    ensures forall i :: p <= i < p + 4 ==> c[i] != QUOTE && c[i] != BACKSLASH
  {
    assert c[p + 0] == d[0] && c[p + 1] == d[1] && c[p + 2] == d[2] && c[p + 3] == d[3];
  }

  /** The scan for the end of the token passes over an escape. */
  lemma OverUnit(c: Bytes, p: nat, d: Bytes)
    requires E.FourDigits(d) && TextAt(c, p, [BACKSLASH, LETTER_U] + d)
    ensures TokenEnd(c, p) == TokenEnd(c, p + 6)
  {
    E.UnitAt(c, p, d);
    HexRead(c, p + 2, p + 6, d);
    assert TokenEnd(c, p + 2) == TokenEnd(c, p + 3) == TokenEnd(c, p + 4) == TokenEnd(c, p + 5) == TokenEnd(c, p + 6);
  }

  lemma OverPiece(c: Bytes, p: nat, x: E.Piece)
    requires Good(x) && TextAt(c, p, E.Written(x))
    ensures TokenEnd(c, p) == TokenEnd(c, p + |E.Written(x)|)
  {
    var t := E.Written(x);
    assert c[p + 0] == t[0];
    match x
    case Plain(b) =>
    case Letter(i) =>
    case Unit(d) => OverUnit(c, p, d);
    case Pair(h, l) =>
      TextInTwo(c, p, [BACKSLASH, LETTER_U] + h, [BACKSLASH, LETTER_U] + l);
      OverUnit(c, p, h);
      OverUnit(c, p + 6, l);
  }

  lemma LettersAgree(letter: Byte)
    ensures EscapedByte(letter).Some? <==> letter in E.LETTERS
    ensures forall i :: 0 <= i < |E.LETTERS| ==> EscapedByte(E.LETTERS[i]) == Some(E.MEANINGS[i])
  {
  }

  lemma UnitDecoded(c: Bytes, p: nat, e: nat, d: Bytes)
    requires Good(E.Unit(d)) && TextAt(c, p, [BACKSLASH, LETTER_U] + d) && p + 6 <= e <= |c|
    ensures c[p] == BACKSLASH && c[p + 1] == LETTER_U && DecodeCodePoint(c, p + 2, e) == Some((E.Spelled(d), p + 6))
  {
    E.UnitAt(c, p, d);
    HexRead(c, p + 2, e, d);
  }

  lemma PairDecoded(c: Bytes, p: nat, e: nat, h: Bytes, l: Bytes)
    requires Good(E.Pair(h, l)) && TextAt(c, p, E.Written(E.Pair(h, l))) && p + 12 <= e <= |c|
    ensures c[p] == BACKSLASH && c[p + 1] == LETTER_U
    ensures DecodeCodePoint(c, p + 2, e)
         == Some((0x10000 + E.Spelled(h) % 1024 * 1024 + E.Spelled(l) % 1024, p + 12))
  {
    TextInTwo(c, p, [BACKSLASH, LETTER_U] + h, [BACKSLASH, LETTER_U] + l);
    E.UnitAt(c, p, h);
    E.UnitAt(c, p + 6, l);
    HexRead(c, p + 2, e, h);
    HexRead(c, p + 8, e, l);
  }

  lemma {:induction false} PieceDecoded(c: Bytes, p: nat, e: nat, x: E.Piece)
    requires Good(x) && TextAt(c, p, E.Written(x)) && p + |E.Written(x)| <= e <= |c|
    ensures Decode(c, p, e) == PutBefore(Value(x), Decode(c, p + |E.Written(x)|, e))
  {
    match x
    case Plain(b) => assert c[p + 0] == [b][0];
    case Letter(i) =>
      assert c[p + 0] == E.Written(x)[0] && c[p + 1] == E.Written(x)[1];
      LettersAgree(E.LETTERS[i]);
    case Unit(d) => UnitDecoded(c, p, e, d);
    case Pair(h, l) => PairDecoded(c, p, e, h, l);
  }

  // ----- tokens -----

  predicate AllGood(xs: seq<E.Piece>) {
    forall i :: 0 <= i < |xs| ==> Good(xs[i])
  }

  function TextAll(xs: seq<E.Piece>): Bytes
    requires AllGood(xs)
  {
    if xs == [] then [] else E.Written(xs[0]) + TextAll(xs[1..])
  }

  function ValueAll(xs: seq<E.Piece>): Bytes
    requires AllGood(xs)
  {
    if xs == [] then [] else Value(xs[0]) + ValueAll(xs[1..])
  }

  /** The pieces stand from `p` to the quote at `e`. */
  predicate Stand(c: Bytes, p: nat, e: nat, xs: seq<E.Piece>) {
    AllGood(xs) && TextAt(c, p, TextAll(xs)) && e == p + |TextAll(xs)| < |c| && c[e] == QUOTE
  }

  lemma {:induction false} FirstStands(c: Bytes, p: nat, e: nat, xs: seq<E.Piece>) returns (q: nat)
    requires xs != [] && Stand(c, p, e, xs)
    ensures Good(xs[0]) && TextAt(c, p, E.Written(xs[0])) && q == p + |E.Written(xs[0])| <= e
    ensures Stand(c, q, e, xs[1..])
  {
    TextInTwo(c, p, E.Written(xs[0]), TextAll(xs[1..]));
    q := p + |E.Written(xs[0])|;
  }

  /** Every literal of such pieces is a token and stands for their bytes. */
  lemma {:induction false} TokenRead(c: Bytes, p: nat, e: nat, xs: seq<E.Piece>)
    requires Stand(c, p, e, xs)
    ensures Reads(c, p, e, ValueAll(xs))
    decreases |xs|
  {
    if xs != [] {
      var q := FirstStands(c, p, e, xs);
      TokenRead(c, q, e, xs[1..]);
      OverPiece(c, p, xs[0]);
      PieceDecoded(c, p, e, xs[0]);
      ReadsOneMore(c, p, q, e, Value(xs[0]), ValueAll(xs[1..]));
    }
  }

  // ----- nothing else is read -----

  lemma {:induction false} DigitsAccepted(c: Bytes, p: nat, e: nat) returns (d: Bytes)
    requires p <= e <= |c| && DecodeHex(c, p, e).Some?
    ensures E.FourDigits(d) && TextAt(c, p, d) && DecodeHex(c, p, e) == Some(E.Spelled(d))
  {
    d := Part(c, p, 4);
    assert d[0] == c[p + 0] && d[1] == c[p + 1] && d[2] == c[p + 2] && d[3] == c[p + 3];
    forall i | 0 <= i < 4 ensures HexValue(d[i]).Some? {
      assert i == 0 || i == 1 || i == 2 || i == 3;
    }
    HexRead(c, p, e, d);
  }

  lemma UnitJoined(c: Bytes, p: nat, d: Bytes)
    requires |d| == 4 && TextAt(c, p + 2, d) && c[p] == BACKSLASH && c[p + 1] == LETTER_U
    ensures TextAt(c, p, [BACKSLASH, LETTER_U] + d)
  {
    TextJoined(c, p, [BACKSLASH, LETTER_U], d);
  }

  lemma {:induction false} EscapeAccepted(c: Bytes, p: nat, e: nat) returns (x: E.Piece)
    requires p + 2 <= e <= |c| && c[p] == BACKSLASH && c[p + 1] == LETTER_U && DecodeCodePoint(c, p + 2, e).Some?
    ensures Good(x) && TextAt(c, p, E.Written(x)) && p + |E.Written(x)| <= e
  {
    var d := DigitsAccepted(c, p + 2, e);
    UnitJoined(c, p, d);
    if 0xD800 <= E.Spelled(d) <= 0xDBFF {
      var l := DigitsAccepted(c, p + 8, e);
      UnitJoined(c, p + 6, l);
      x := E.Pair(d, l);
      TextJoined(c, p, [BACKSLASH, LETTER_U] + d, [BACKSLASH, LETTER_U] + l);
    } else {
      x := E.Unit(d);
    }
  }

  lemma {:induction false} PieceAccepted(c: Bytes, p: nat, e: nat, s: Bytes) returns (x: E.Piece)
    requires p < e && Reads(c, p, e, s)
    ensures Good(x) && TextAt(c, p, E.Written(x)) && p + |E.Written(x)| <= e
  {
    if c[p] != BACKSLASH {
      x := E.Plain(c[p]);
    } else if c[p + 1] == LETTER_U {
      x := EscapeAccepted(c, p, e);
    } else {
      LettersAgree(c[p + 1]);
      var i: nat :| i < |E.LETTERS| && E.LETTERS[i] == c[p + 1];
      x := E.Letter(i);
    }
  }

  lemma {:induction false} PieceBefore(c: Bytes, p: nat, e: nat, x: E.Piece, ys: seq<E.Piece>)
    requires Good(x) && TextAt(c, p, E.Written(x)) && Stand(c, p + |E.Written(x)|, e, ys)
    ensures Stand(c, p, e, [x] + ys) && ValueAll([x] + ys) == Value(x) + ValueAll(ys)
  {
    assert ([x] + ys)[1..] == ys;
    TextJoined(c, p, E.Written(x), TextAll(ys));
  }

  /** What is read stands there in such pieces. */
  lemma {:induction false} TokenAccepted(c: Bytes, p: nat, e: nat, s: Bytes) returns (xs: seq<E.Piece>)
    requires Reads(c, p, e, s)
    ensures Stand(c, p, e, xs) && ValueAll(xs) == s
    decreases e - p
  {
    if p == e {
      xs := [];
      QuoteThere(c, p);
    } else {
      var x := PieceAccepted(c, p, e, s);
      var q := p + |E.Written(x)|;
      OverPiece(c, p, x);
      PieceDecoded(c, p, e, x);
      var ys := TokenAccepted(c, q, e, Decode(c, q, e).value);
      xs := [x] + ys;
      PieceBefore(c, p, e, x, ys);
    }
  }

  lemma {:induction false} QuoteThere(c: Bytes, p: nat)
    requires TokenEnd(c, p).Some?
    ensures c[TokenEnd(c, p).value] == QUOTE
    decreases |c| - p
  {
    if c[p] == BACKSLASH { QuoteThere(c, p + 2); } else if c[p] != QUOTE { QuoteThere(c, p + 1); }
  }

  ghost predicate Spells(c: Bytes, p: nat, e: nat, xs: seq<E.Piece>, s: Bytes) {
    Stand(c, p, e, xs) && ValueAll(xs) == s
  }

  /** readString and decodeString: a token is read as `s` if and only if it is made of pieces that stand for `s`. */
  lemma TokenIs(c: Bytes, p: nat, e: nat, s: Bytes)
    ensures Reads(c, p, e, s) <==> exists xs: seq<E.Piece> :: Spells(c, p, e, xs, s)
  {
    if Reads(c, p, e, s) {
      var xs := TokenAccepted(c, p, e, s);
      assert Spells(c, p, e, xs, s);
    }
    forall xs: seq<E.Piece> | Spells(c, p, e, xs, s) ensures Reads(c, p, e, s) { TokenRead(c, p, e, xs); }
  }

  // ----- the writer's choice -----

  /** RFC 8259 asks for control characters to be escaped and for pairs to be proper. */
  predicate Standard(x: E.Piece) {
    E.WellFormed(x) && (x.Plain? ==> x.b >= 32)
  }

  predicate AllStandard(xs: seq<E.Piece>) {
    forall i :: 0 <= i < |xs| ==> Standard(xs[i])
  }

  /** The reader takes them all. */
  lemma {:induction false} StandardGood(xs: seq<E.Piece>)
    requires AllStandard(xs)
    ensures AllGood(xs)
  {
    forall i | 0 <= i < |xs| ensures Good(xs[i]) { StandardPiece(xs[i]); }
  }

  function CostOf(s: Bytes): nat {
    if s == [] then 0 else |ByteText(s[0])| + CostOf(s[1..])
  }

  lemma {:induction false} CostAppend(a: Bytes, b: Bytes)
    ensures CostOf(a + b) == CostOf(a) + CostOf(b)
    decreases |a|
  {
    if a == [] {
      assert a + b == b;
    } else {
      assert (a + b)[1..] == a[1..] + b;
      CostAppend(a[1..], b);
    }
  }

  lemma {:induction false} EscapeCost(s: Bytes)
    ensures |Escape(s, true)| == CostOf(s)
    decreases |s|
  {
    if s != [] { EscapeCost(s[1..]); }
  }

  lemma {:induction false} CostHigh(s: Bytes)
    requires forall i :: 0 <= i < |s| ==> s[i] >= 0x80
    ensures CostOf(s) == |s|
    decreases |s|
  {
    if s != [] { CostHigh(s[1..]); }
  }

  lemma {:induction false} CostPoint(cp: nat)
    requires cp <= 0x10FFFF
    ensures CostOf(Utf8(cp)) <= 6
  {
    if cp < 0x80 {
      assert Utf8(cp)[1..] == [] && CostOf([]) == 0;
    } else {
      HighUtf8(cp);
      CostHigh(Utf8(cp));
    }
  }

  lemma {:induction false} PieceCost(x: E.Piece)
    requires Standard(x)
    ensures Good(x) && CostOf(Value(x)) <= |E.Written(x)|
  {
    StandardPiece(x);
    var v := Value(x);
    match x
    case Plain(b) => assert v[1..] == [] && CostOf([]) == 0;
    case Letter(i) => assert v[1..] == [] && CostOf([]) == 0;
    case Unit(d) => CostPoint(E.Spelled(d));
    case Pair(h, l) => CostPoint(E.Combined(E.Spelled(h), E.Spelled(l)));
  }

  lemma {:induction false} PiecesCost(xs: seq<E.Piece>)
    requires AllStandard(xs) && AllGood(xs)
    ensures CostOf(ValueAll(xs)) <= |TextAll(xs)|
    decreases |xs|
  {
    if xs != [] {
      PieceCost(xs[0]);
      PiecesCost(xs[1..]);
      CostAppend(Value(xs[0]), ValueAll(xs[1..]));
    }
  }

  /** The piece the writer makes of a byte, and of a code point if it escapes to ASCII. */
  function PieceFor(b: Byte): E.Piece {
    if b == QUOTE then E.Letter(0) else if b == BACKSLASH then E.Letter(1) else if b == 8 then E.Letter(3)
    else if b == 12 then E.Letter(4) else if b == 10 then E.Letter(5) else if b == 13 then E.Letter(6)
    else if b == 9 then E.Letter(7) else if b < 32 then E.Unit(E.HexText(b as int)) else E.Plain(b)
  }

  function PieceForPoint(cp: nat): E.Piece
    requires IsScalar(cp)
  {
    if cp < 128 then PieceFor(cp as Byte) else E.ScalarPiece(cp)
  }

  lemma Nibbles(x: nat)
    requires x < 0x10000
    ensures x / 256 / 16 == x / 4096 && x / 256 < 256 && x / 4096 < 16
  {
  }

  lemma LowNibbles(x: nat)
    ensures x % 256 / 16 == x / 16 % 16 && x % 256 % 16 == x % 16
  {
    var q, r := x / 256, x % 256;
    assert x == 16 * (16 * q + r / 16) + r % 16;
    assert x / 16 == 16 * q + r / 16;
  }

  lemma HexIs(x: nat)
    requires x < 0x10000
    ensures Hex(x) == [BACKSLASH, LETTER_U] + E.HexText(x)
  {
    Nibbles(x);
    LowNibbles(x);
    var hi, lo := E.TwoDigits(x / 256), E.TwoDigits(x % 256);
    assert hi == [HexDigit(x / 4096), HexDigit(x / 256 % 16)];
    assert lo == [HexDigit(x / 16 % 16), HexDigit(x % 16)];
  }

  lemma {:induction false} ByteSpelled(b: Byte)
    ensures Standard(PieceFor(b)) && Good(PieceFor(b))
    ensures E.Written(PieceFor(b)) == ByteText(b) && Value(PieceFor(b)) == [b]
  {
    if b < 32 && QuoteLetter(b) == 0 {
      E.SpelledBack(b as int);
      HexIs(b as int);
    }
    StandardPiece(PieceFor(b));
  }

  lemma PairText(h: nat, l: nat)
    requires h < 0x10000 && l < 0x10000
    ensures E.Written(E.Pair(E.HexText(h), E.HexText(l))) == Hex(h) + Hex(l)
  {
    HexIs(h);
    HexIs(l);
  }

  lemma HalvesWritten(cp: nat, h: nat, l: nat)
    requires E.Encodes(h, l, cp)
    ensures h < 0x10000 && l < 0x10000 && EscapeCodepoint(cp) == Hex(h) + Hex(l)
  {
    var n := (cp - 0x10000) / 0x400;
    assert n < 1024;
    assert (cp - 0x10000) / 1024 % 1024 == n;
  }

  /** A code point that needs a pair. */
  lemma {:induction false} PairSpelled(cp: nat)
    requires 0x10000 <= cp <= 0x10FFFF
    ensures E.Written(E.ScalarPiece(cp)) == EscapeCodepoint(cp)
  {
    var h, l := 0xD800 + (cp - 0x10000) / 0x400, 0xDC00 + (cp - 0x10000) % 0x400;
    HalvesWritten(cp, h, l);
    PairText(h, l);
    assert E.ScalarPiece(cp) == E.Pair(E.HexText(h), E.HexText(l));
  }

  lemma {:induction false} UnitSpelled(cp: nat)
    requires IsScalar(cp) && 128 <= cp < 0x10000
    ensures E.WellFormed(E.ScalarPiece(cp)) && E.Written(E.ScalarPiece(cp)) == EscapeCodepoint(cp)
  {
    E.ScalarRead(cp);
    HexIs(cp);
  }

  lemma {:induction false} PointSpelled(cp: nat)
    requires IsScalar(cp)
    ensures var x := PieceForPoint(cp);
      Standard(x) && Good(x) && E.Written(x) == ItemText(cp) && Value(x) == Utf8(cp)
  {
    if cp < 128 {
      ByteSpelled(cp as Byte);
    } else {
      if cp < 0x10000 { UnitSpelled(cp); } else { PairSpelled(cp); }
      E.ScalarRead(cp);
      StandardPiece(E.ScalarPiece(cp));
    }
  }

  ghost predicate Writes(xs: seq<E.Piece>, text: Bytes, s: Bytes) {
    AllStandard(xs) && AllGood(xs) && TextAll(xs) == text && ValueAll(xs) == s
  }

  lemma {:induction false} OneMoreWritten(x: E.Piece, xs: seq<E.Piece>, text: Bytes, s: Bytes)
    requires Standard(x) && Good(x) && Writes(xs, text, s)
    ensures Writes([x] + xs, E.Written(x) + text, Value(x) + s)
  {
    assert ([x] + xs)[1..] == xs;
  }

  lemma {:induction false} WrittenUtf8(s: Bytes) returns (xs: seq<E.Piece>)
    ensures Writes(xs, Escape(s, true), s)
    decreases |s|
  {
    if s == [] {
      xs := [];
    } else {
      var ys := WrittenUtf8(s[1..]);
      ByteSpelled(s[0]);
      OneMoreWritten(PieceFor(s[0]), ys, Escape(s[1..], true), s[1..]);
      xs := [PieceFor(s[0])] + ys;
      assert s == [s[0]] + s[1..];
    }
  }

  lemma {:induction false} WrittenAscii(cps: seq<nat>) returns (xs: seq<E.Piece>)
    requires AllScalar(cps)
    ensures Writes(xs, ItemTexts(cps), Utf8All(cps))
    decreases |cps|
  {
    if cps == [] {
      xs := [];
    } else {
      var ys := WrittenAscii(cps[1..]);
      PointSpelled(cps[0]);
      OneMoreWritten(PieceForPoint(cps[0]), ys, ItemTexts(cps[1..]), Utf8All(cps[1..]));
      xs := [PieceForPoint(cps[0])] + ys;
    }
  }

  // ----- what is written is read -----

  lemma {:induction false} WrittenBack(xs: seq<E.Piece>, text: Bytes, s: Bytes)
    requires Writes(xs, text, s)
    ensures var c := [QUOTE] + text + [QUOTE]; Reads(c, 1, |c| - 1, s)
  {
    var c := [QUOTE] + text + [QUOTE];
    E.TextParts([QUOTE], text, [QUOTE]);
    assert c[|text| + 1] == QUOTE;
    TokenRead(c, 1, |c| - 1, xs);
  }

  /** Written as UTF-8, every byte string is read back as itself, valid or not. */
  lemma Utf8Back(s: Bytes)
    ensures var c := Quoted(s, true); Reads(c, 1, |c| - 1, s)
  {
    var xs := WrittenUtf8(s);
    WrittenBack(xs, Escape(s, true), s);
  }

  lemma {:induction false} ItemsBack(cps: seq<nat>)
    requires AllScalar(cps)
    ensures var c := [QUOTE] + ItemTexts(cps) + [QUOTE]; Reads(c, 1, |c| - 1, Utf8All(cps))
  {
    var xs := WrittenAscii(cps);
    WrittenBack(xs, ItemTexts(cps), Utf8All(cps));
  }

  /**
   * For every valid UTF-8 string the quoted text, escaped to ASCII or not, ends as a token at its last
   * quote and decodes to the same bytes.
   */
  lemma QuotedBack(cps: seq<nat>, emitUtf8: bool)
    requires AllScalar(cps)
    ensures var c := Quoted(Utf8All(cps), emitUtf8); Reads(c, 1, |c| - 1, Utf8All(cps))
  {
    if emitUtf8 {
      Utf8Back(Utf8All(cps));
    } else {
      EscapeAll(cps);
      ItemsBack(cps);
    }
  }

  ghost predicate ValidUtf8(s: Bytes) {
    exists cps: seq<nat> :: AllScalar(cps) && s == Utf8All(cps)
  }

  lemma AsciiReads(s: Bytes)
    ensures var c := Quoted(s, false); Reads(c, 1, |c| - 1, Utf8All(CodePoints(s)))
  {
    EscapeByCodePoints(s);
    ItemsBack(CodePoints(s));
  }

  lemma ValidReads(s: Bytes)
    requires ValidUtf8(s)
    ensures var c := Quoted(s, false); Reads(c, 1, |c| - 1, s)
  {
    var cps :| AllScalar(cps) && s == Utf8All(cps);
    QuotedBack(cps, false);
  }

  /** Escaped to ASCII, a string is read back as itself if and only if it is valid UTF-8. */
  lemma AsciiBack(s: Bytes)
    ensures var c := Quoted(s, false);
      TokenEnd(c, 1) == Some(|c| - 1) && (Decode(c, 1, |c| - 1) == Some(s) <==> ValidUtf8(s))
  {
    AsciiReads(s);
    if ValidUtf8(s) { ValidReads(s); }
  }

  // ----- nothing is shorter -----

  /** Written as UTF-8, a byte string is a literal of RFC 8259, and none that stands for the same bytes is shorter. */
  lemma ShortestUtf8(s: Bytes, xs: seq<E.Piece>)
    requires AllStandard(xs) && AllGood(xs) && ValueAll(xs) == s
    ensures |Escape(s, true)| <= |TextAll(xs)|
    ensures exists ys: seq<E.Piece> :: Writes(ys, Escape(s, true), s)
  {
    EscapeCost(s);
    PiecesCost(xs);
    var ys := WrittenUtf8(s);
  }

  // ----- escaped to ASCII -----

  predicate Printable(t: Bytes) {
    forall i :: 0 <= i < |t| ==> 32 <= t[i] < 128
  }

  /** The code point of a piece of ASCII characters. */
  function Point(x: E.Piece): (cp: nat)
    requires Standard(x) && (x.Plain? ==> x.b < 128)
    ensures IsScalar(cp)
  {
    match x
    case Plain(b) => b as int
    case Letter(i) => E.MEANINGS[i] as int
    case Unit(d) => E.Spelled(d)
    case Pair(h, l) => E.Combined(E.Spelled(h), E.Spelled(l))
  }

  function Points(xs: seq<E.Piece>): (cps: seq<nat>)
    requires AllStandard(xs) && forall i :: 0 <= i < |xs| && xs[i].Plain? ==> xs[i].b < 128
    ensures AllScalar(cps)
  {
    if xs == [] then [] else [Point(xs[0])] + Points(xs[1..])
  }

  lemma {:induction false} PointCost(x: E.Piece)
    requires Standard(x) && (x.Plain? ==> x.b < 128)
    ensures Good(x) && Value(x) == Utf8(Point(x)) && |ItemText(Point(x))| <= |E.Written(x)|
  {
    StandardPiece(x);
  }

  lemma {:induction false} PointsCost(xs: seq<E.Piece>)
    requires AllStandard(xs) && AllGood(xs) && forall i :: 0 <= i < |xs| && xs[i].Plain? ==> xs[i].b < 128
    ensures ValueAll(xs) == Utf8All(Points(xs)) && |ItemTexts(Points(xs))| <= |TextAll(xs)|
    decreases |xs|
  {
    if xs != [] {
      PointCost(xs[0]);
      PointsCost(xs[1..]);
      assert Points(xs)[1..] == Points(xs[1..]);
    }
  }

  /** A byte string is the UTF-8 of one sequence of code points at most. */
  lemma {:induction false} PointsUnique(a: seq<nat>, b: seq<nat>)
    requires AllScalar(a) && AllScalar(b) && Utf8All(a) == Utf8All(b)
    ensures a == b
    decreases |a|
  {
    if a != [] && b != [] {
      Utf8Decodes(a[0], Utf8All(a[1..]));
      Utf8Decodes(b[0], Utf8All(b[1..]));
      var n := |Utf8(a[0])|;
      assert Utf8All(a)[n..] == Utf8All(a[1..]) && Utf8All(b)[n..] == Utf8All(b[1..]);
      PointsUnique(a[1..], b[1..]);
      assert a == [a[0]] + a[1..] && b == [b[0]] + b[1..];
    }
  }

  lemma {:induction false} TextPrintable(cps: seq<nat>)
    requires AllScalar(cps)
    ensures Printable(ItemTexts(cps))
    decreases |cps|
  {
    if cps != [] { TextPrintable(cps[1..]); }
  }

  /**
   * Escaped to ASCII, valid UTF-8 is a literal of RFC 8259 of visible ASCII characters and DEL, and no such
   * literal that stands for the same bytes is shorter.
   */
  lemma ShortestAscii(cps: seq<nat>, xs: seq<E.Piece>)
    requires AllScalar(cps) && AllStandard(xs) && AllGood(xs) && ValueAll(xs) == Utf8All(cps)
    requires forall i :: 0 <= i < |xs| && xs[i].Plain? ==> xs[i].b < 128
    ensures var t := Escape(Utf8All(cps), false);
      Printable(t) && |t| <= |TextAll(xs)| && exists ys: seq<E.Piece> :: Writes(ys, t, Utf8All(cps))
  {
    EscapeAll(cps);
    PointsCost(xs);
    PointsUnique(cps, Points(xs));
    TextPrintable(cps);
    var ys := WrittenAscii(cps);
  }
}
