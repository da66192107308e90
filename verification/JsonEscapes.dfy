// What parse_string makes of every string literal: plain bytes, one-letter escapes, UTF-16 escapes and pairs.
module JsonEscapes {
  import opened Wrappers
  import opened CText
  import opened Sequences
  import opened Octets
  import opened Unicode
  import opened JsonText
  import opened JsonGrammar

  // ----- hexadecimal digits -----

  const LOWER_DIGITS: Bytes := [48, 49, 50, 51, 52, 53, 54, 55, 56, 57, 97, 98, 99, 100, 101, 102]
  const UPPER_DIGITS: Bytes := [48, 49, 50, 51, 52, 53, 54, 55, 56, 57, 65, 66, 67, 68, 69, 70]

  /** The digits of either case, each with its value, and nothing else. */
  lemma HexDigits(b: Byte, n: nat)
    ensures HexValue(b) == Some(n) <==> n < 16 && (b == LOWER_DIGITS[n] || b == UPPER_DIGITS[n])
  {
  }

  /** The number four digits spell; 0 if one of them is none. */
  function Spelled(d: Bytes): nat
    requires |d| == 4
  {
    var v := (i: int) requires 0 <= i < 4 => HexValue(d[i]);
    if v(0).None? || v(1).None? || v(2).None? || v(3).None? then 0
    else 4096 * v(0).value + 256 * v(1).value + 16 * v(2).value + v(3).value
  }

  lemma Hex4Spelled(c: Bytes, p: nat, d: Bytes)
    requires |d| == 4 && TextAt(c, p, d)
    ensures Hex4(c, p) == Spelled(d)
  {
    assert c[p + 0] == d[0] && c[p + 1] == d[1] && c[p + 2] == d[2] && c[p + 3] == d[3];
  }

  // ----- one-letter escapes -----

  const LETTERS: Bytes := [QUOTE, BACKSLASH, 47, 98, 102, 110, 114, 116]
  const MEANINGS: Bytes := [QUOTE, BACKSLASH, 47, 8, 12, 10, 13, 9]

  /** The table of section 7 of RFC 8259. */
  lemma EscapeLetters(letter: Byte)
    ensures letter in LETTERS <==> EscapedByte(letter).Some?
    ensures forall i :: 0 <= i < |LETTERS| ==> EscapedByte(LETTERS[i]) == Some(MEANINGS[i])
  {
  }

  // ----- the pieces of a literal -----

  /** A byte for itself, an escape of one letter, one UTF-16 escape, or two that make a pair. */
  datatype Piece = Plain(b: Byte) | Letter(i: nat) | Unit(d: Bytes) | Pair(high: Bytes, low: Bytes)

  predicate IsSurrogate(n: nat) {
    0xD800 <= n <= 0xDFFF
  }

  predicate FourDigits(d: Bytes) {
    |d| == 4 && forall i :: 0 <= i < 4 ==> HexValue(d[i]).Some?
  }

  predicate WellFormed(x: Piece) {
    match x
    case Plain(b) => b != QUOTE && b != BACKSLASH
    case Letter(i) => i < |LETTERS|
    case Unit(d) => FourDigits(d) && !IsSurrogate(Spelled(d))
    case Pair(h, l) =>
      FourDigits(h) && FourDigits(l) && 0xD800 <= Spelled(h) <= 0xDBFF && 0xDC00 <= Spelled(l) <= 0xDFFF
  }

  function Written(x: Piece): (r: Bytes)
    requires x.Letter? ==> x.i < |LETTERS|
    ensures |r| > 0
  {
    match x
    case Plain(b) => [b]
    case Letter(i) => [BACKSLASH, LETTERS[i]]
    case Unit(d) => [BACKSLASH, 117] + d
    case Pair(h, l) => ([BACKSLASH, 117] + h) + ([BACKSLASH, 117] + l)
  }

  /** The code point of a pair, as UTF-16 encodes it. */
  predicate Encodes(h: nat, l: nat, cp: nat) {
    0x10000 <= cp <= 0x10FFFF && h == 0xD800 + (cp - 0x10000) / 0x400 && l == 0xDC00 + (cp - 0x10000) % 0x400
  }

  function Combined(h: nat, l: nat): (cp: nat)
    requires 0xD800 <= h <= 0xDBFF && 0xDC00 <= l <= 0xDFFF
    ensures cp <= 0x10FFFF
  {
    0x10000 + (h - 0xD800) * 0x400 + (l - 0xDC00)
  }

  /** The bytes it stands for. */
  function Meaning(x: Piece): Bytes
    requires WellFormed(x)
  {
    match x
    case Plain(b) => [b]
    case Letter(i) => [MEANINGS[i]]
    case Unit(d) => Utf8(Spelled(d))
    case Pair(h, l) => Utf8(Combined(Spelled(h), Spelled(l)))
  }

  lemma CombinedIs(h: nat, l: nat, cp: nat)
    requires 0xD800 <= h <= 0xDBFF && 0xDC00 <= l <= 0xDFFF
    ensures Encodes(h, l, cp) <==> cp == Combined(h, l)
  {
    var n := Combined(h, l) - 0x10000;
    assert n == 0x400 * (h - 0xD800) + (l - 0xDC00);
    assert n / 0x400 == h - 0xD800 && n % 0x400 == l - 0xDC00;
    if Encodes(h, l, cp) {
      assert cp - 0x10000 == 0x400 * ((cp - 0x10000) / 0x400) + (cp - 0x10000) % 0x400;
    }
  }

  // ----- one piece is read -----

  lemma UnitAt(c: Bytes, p: nat, d: Bytes)
    requires |d| == 4 && TextAt(c, p, [BACKSLASH, 117] + d)
    ensures c[p] == BACKSLASH && c[p + 1] == 117 && TextAt(c, p + 2, d)
  {
    var t := [BACKSLASH, 117] + d;
    assert c[p + 0] == t[0] && c[p + 1] == t[1];
    TextInTwo(c, p, [BACKSLASH, 117], d);
  }

  lemma Halves(h: nat, l: nat)
    requires 0xD800 <= h <= 0xDBFF && 0xDC00 <= l <= 0xDFFF
    ensures 0x10000 + (h % 0x400) * 0x400 + l % 0x400 == Combined(h, l)
  {
    assert h == 0x400 * 54 + (h - 0xD800) && l == 0x400 * 55 + (l - 0xDC00);
  }

  lemma PairCombined(c: Bytes, p: nat, e: nat, h: nat, l: nat)
    requires p + 12 <= e < |c| && Hex4(c, p + 2) == h && Hex4(c, p + 8) == l && c[p + 6] == BACKSLASH && c[p + 7] == 117
    requires 0xD800 <= h <= 0xDBFF && 0xDC00 <= l <= 0xDFFF
    ensures Codepoint(c, p, e) == Some((12, Combined(h, l)))
  {
    Halves(h, l);
  }

  lemma HighLow(h: nat, l: nat, cp: nat)
    requires Encodes(h, l, cp)
    ensures 0xD800 <= h <= 0xDBFF && 0xDC00 <= l <= 0xDFFF
  {
  }

  /** Two escapes that spell the halves of a code point are read as that code point. */
  lemma PairRead(c: Bytes, p: nat, e: nat, high: Bytes, low: Bytes, cp: nat)
    requires |high| == 4 && |low| == 4 && Encodes(Spelled(high), Spelled(low), cp)
    requires TextAt(c, p, [BACKSLASH, 117] + high) && TextAt(c, p + 6, [BACKSLASH, 117] + low) && p + 12 <= e < |c|
    ensures Codepoint(c, p, e) == Some((12, cp))
  {
    var h, l := Spelled(high), Spelled(low);
    HighLow(h, l, cp);
    CombinedIs(h, l, cp);
    HalvesRead(c, p, e, high, low);
  }

  lemma HalvesRead(c: Bytes, p: nat, e: nat, high: Bytes, low: Bytes)
    requires |high| == 4 && |low| == 4 && 0xD800 <= Spelled(high) <= 0xDBFF && 0xDC00 <= Spelled(low) <= 0xDFFF
    requires TextAt(c, p, [BACKSLASH, 117] + high) && TextAt(c, p + 6, [BACKSLASH, 117] + low) && p + 12 <= e < |c|
    ensures Codepoint(c, p, e) == Some((12, Combined(Spelled(high), Spelled(low))))
  {
    UnitAt(c, p, high);
    UnitAt(c, p + 6, low);
    Hex4Spelled(c, p + 2, high);
    Hex4Spelled(c, p + 8, low);
    PairCombined(c, p, e, Spelled(high), Spelled(low));
  }

  lemma UnitRead(c: Bytes, p: nat, e: nat, d: Bytes)
    requires |d| == 4 && !IsSurrogate(Spelled(d)) && TextAt(c, p, [BACKSLASH, 117] + d) && p + 6 <= e < |c|
    ensures Codepoint(c, p, e) == Some((6, Spelled(d)))
  {
    UnitAt(c, p, d);
    Hex4Spelled(c, p + 2, d);
  }

  /** A high surrogate without a low one behind it is refused, and so is a low one alone. */
  lemma LoneSurrogate(c: Bytes, p: nat, e: nat, d: Bytes)
    requires |d| == 4 && IsSurrogate(Spelled(d)) && TextAt(c, p, [BACKSLASH, 117] + d) && p + 6 <= e < |c|
    requires forall low: Bytes {:trigger Spelled(low)} ::
      |low| == 4 && p + 12 <= e && TextAt(c, p + 6, [BACKSLASH, 117] + low) ==> !(0xDC00 <= Spelled(low) <= 0xDFFF)
    ensures Codepoint(c, p, e).None?
  {
    UnitAt(c, p, d);
    Hex4Spelled(c, p + 2, d);
    if e - p >= 12 && c[p + 6] == BACKSLASH && c[p + 7] == 117 {
      var low := Part(c, p + 8, 4);
      Hex4Spelled(c, p + 8, low);
      assert TextAt(c, p + 6, [BACKSLASH, 117] + low);
    }
  }

  lemma ReadEscape(c: Bytes, p: nat, e: nat, n: nat, cp: nat)
    requires p < e < |c| && p + 1 < |c| && c[p] == BACKSLASH && c[p + 1] == 117
    requires Codepoint(c, p, e) == Some((n, cp))
    ensures Unescape(c, p, e) == PutBefore(Utf8(cp), Unescape(c, p + n, e))
  {
  }

  lemma ReadLetter(c: Bytes, p: nat, e: nat, i: nat)
    requires i < |LETTERS| && TextAt(c, p, [BACKSLASH, LETTERS[i]]) && p + 2 <= e < |c|
    ensures Unescape(c, p, e) == PutBefore([MEANINGS[i]], Unescape(c, p + 2, e))
  {
    var t := [BACKSLASH, LETTERS[i]];
    assert c[p + 0] == t[0] && c[p + 1] == t[1];
    EscapeLetters(t[1]);
  }

  lemma ReadPair(c: Bytes, p: nat, e: nat, h: Bytes, l: Bytes)
    requires WellFormed(Pair(h, l)) && TextAt(c, p, Written(Pair(h, l))) && p + 12 <= e < |c|
    ensures Unescape(c, p, e) == PutBefore(Meaning(Pair(h, l)), Unescape(c, p + 12, e))
  {
    TextInTwo(c, p, [BACKSLASH, 117] + h, [BACKSLASH, 117] + l);
    UnitAt(c, p, h);
    HalvesRead(c, p, e, h, l);
    ReadEscape(c, p, e, 12, Combined(Spelled(h), Spelled(l)));
  }

  lemma {:induction false} ReadPiece(c: Bytes, p: nat, e: nat, x: Piece)
    requires WellFormed(x) && TextAt(c, p, Written(x)) && p + |Written(x)| <= e < |c|
    ensures Unescape(c, p, e) == PutBefore(Meaning(x), Unescape(c, p + |Written(x)|, e))
  {
    match x
    case Plain(b) => assert c[p + 0] == [b][0];
    case Letter(i) => ReadLetter(c, p, e, i);
    case Unit(d) =>
      UnitAt(c, p, d);
      UnitRead(c, p, e, d);
      ReadEscape(c, p, e, 6, Spelled(d));
    case Pair(h, l) => ReadPair(c, p, e, h, l);
  }

  lemma CloseOverUnit(c: Bytes, p: nat, d: Bytes)
    requires |d| == 4 && QUOTE !in d && BACKSLASH !in d && TextAt(c, p, [BACKSLASH, 117] + d)
    ensures CloseQuote(c, p) == CloseQuote(c, p + 6)
  {
    UnitAt(c, p, d);
    assert c[p + 2 + 0] == d[0] && c[p + 2 + 1] == d[1] && c[p + 2 + 2] == d[2] && c[p + 2 + 3] == d[3];
    assert CloseQuote(c, p) == CloseQuote(c, p + 2) == CloseQuote(c, p + 3) == CloseQuote(c, p + 4)
        == CloseQuote(c, p + 5) == CloseQuote(c, p + 6);
  }

  lemma CloseOverPiece(c: Bytes, p: nat, x: Piece)
    requires WellFormed(x) && TextAt(c, p, Written(x))
    ensures CloseQuote(c, p) == CloseQuote(c, p + |Written(x)|)
  {
    var t := Written(x);
    assert c[p + 0] == t[0];
    match x
    case Plain(b) =>
    case Letter(i) => assert c[p + 1] == t[1];
    case Unit(d) => CloseOverUnit(c, p, d);
    case Pair(h, l) =>
      TextInTwo(c, p, [BACKSLASH, 117] + h, [BACKSLASH, 117] + l);
      CloseOverUnit(c, p, h);
      CloseOverUnit(c, p + 6, l);
  }

  // ----- whole literals -----

  predicate AllWellFormed(xs: seq<Piece>) {
    forall i :: 0 <= i < |xs| ==> WellFormed(xs[i])
  }

  function WrittenAll(xs: seq<Piece>): Bytes
    requires AllWellFormed(xs)
  {
    if xs == [] then [] else Written(xs[0]) + WrittenAll(xs[1..])
  }

  function MeaningAll(xs: seq<Piece>): Bytes
    requires AllWellFormed(xs)
  {
    if xs == [] then [] else Meaning(xs[0]) + MeaningAll(xs[1..])
  }

  lemma {:induction false} FirstPiece(c: Bytes, p: nat, xs: seq<Piece>)
    requires AllWellFormed(xs) && xs != [] && TextAt(c, p, WrittenAll(xs))
    ensures var t, rest := Written(xs[0]), WrittenAll(xs[1..]);
      TextAt(c, p, t) && TextAt(c, p + |t|, rest) && |WrittenAll(xs)| == |t| + |rest|
  {
    TextInTwo(c, p, Written(xs[0]), WrittenAll(xs[1..]));
  }

  /** The pieces stand in the content from `p` to `e`. */
  predicate Stand(c: Bytes, p: nat, e: nat, xs: seq<Piece>) {
    AllWellFormed(xs) && TextAt(c, p, WrittenAll(xs)) && e == p + |WrittenAll(xs)| < |c|
  }

  /** The first of them, and the others behind it. */
  lemma {:induction false} FirstStands(c: Bytes, p: nat, e: nat, xs: seq<Piece>) returns (q: nat)
    requires xs != [] && Stand(c, p, e, xs)
    ensures WellFormed(xs[0]) && TextAt(c, p, Written(xs[0])) && q == p + |Written(xs[0])| <= e
    ensures Stand(c, q, e, xs[1..])
  {
    FirstPiece(c, p, xs);
    q := p + |Written(xs[0])|;
  }

  /** No quote in the pieces ends the literal. */
  lemma {:induction false} CloseBehind(c: Bytes, p: nat, q: nat, xs: seq<Piece>)
    requires Stand(c, p, q, xs)
    ensures CloseQuote(c, p) == CloseQuote(c, q)
    decreases |xs|
  {
    if xs != [] {
      var m := FirstStands(c, p, q, xs);
      CloseBehind(c, m, q, xs[1..]);
      CloseOverPiece(c, p, xs[0]);
    }
  }

  lemma {:induction false} ReadPieces(c: Bytes, p: nat, q: nat, e: nat, xs: seq<Piece>)
    requires Stand(c, p, q, xs) && q <= e < |c|
    ensures Unescape(c, p, e) == PutBefore(MeaningAll(xs), Unescape(c, q, e))
    decreases |xs|
  {
    if xs == [] {
      NothingBefore(Unescape(c, q, e));
    } else {
      var m := FirstStands(c, p, q, xs);
      ReadPieces(c, m, q, e, xs[1..]);
      ReadPiece(c, p, e, xs[0]);
      TwiceBefore(Meaning(xs[0]), MeaningAll(xs[1..]), Unescape(c, q, e));
    }
  }

  // ----- malformed digits -----

  /** An escape with a byte that is no digit, at the start. */
  predicate Malformed(g: Bytes) {
    |g| >= 6 && g[0] == BACKSLASH && g[1] == 117 && exists i :: 2 <= i < 6 && HexValue(g[i]).None?
  }

  /** Such an escape and what follows it: the scans of parse_string go on to the quote behind. */
  predicate Garbled(g: Bytes) {
    Malformed(g) && CloseQuote(g + [QUOTE], 0) == Some(|g|) && Unescape(g + [QUOTE], 0, |g|).Some?
  }

  /** The bytes between the quotes: pieces, and behind them, if there is a malformed digit, the rest from there. */
  datatype Literal = Literal(pieces: seq<Piece>, garbled: Bytes)

  predicate IsLiteral(l: Literal) {
    AllWellFormed(l.pieces) && (l.garbled == [] || Garbled(l.garbled))
  }

  function LiteralText(l: Literal): Bytes
    requires IsLiteral(l)
  {
    [QUOTE] + (WrittenAll(l.pieces) + (l.garbled + [QUOTE]))
  }

  /** What it stands for: the bytes of the pieces, up to the first zero among them. */
  function StringOf(l: Literal): CString
    requires IsLiteral(l)
  {
    CutAtZero(MeaningAll(l.pieces))
  }

  /** A scan depends on the bytes it passes over only. */
  lemma {:induction false} CloseShift(c: Bytes, p: nat, t: Bytes, i: nat)
    requires TextAt(c, p, t) && i <= |t|
    requires CloseQuote(t, i).Some? || (CloseQuote(c, p + i).Some? && CloseQuote(c, p + i).value < p + |t|)
    ensures CloseQuote(t, i).Some? && CloseQuote(c, p + i) == Some(p + CloseQuote(t, i).value)
    decreases |t| - i
  {
    if i < |t| {
      assert c[p + i] == t[i];
      if t[i] == BACKSLASH {
        assert i + 1 < |t|;
        CloseShift(c, p, t, i + 2);
      } else if t[i] != QUOTE {
        CloseShift(c, p, t, i + 1);
      }
    }
  }

  lemma HexShift(c: Bytes, p: nat, t: Bytes, i: nat)
    requires TextAt(c, p, t) && i + 4 <= |t|
    ensures Hex4(c, p + i) == Hex4(t, i)
  {
    assert c[p + i] == t[i] && c[p + (i + 1)] == t[i + 1] && c[p + (i + 2)] == t[i + 2] && c[p + (i + 3)] == t[i + 3];
  }

  lemma CodepointShift(c: Bytes, p: nat, t: Bytes, i: nat, k: nat)
    requires TextAt(c, p, t) && i <= k < |t|
    ensures Codepoint(c, p + i, p + k) == Codepoint(t, i, k)
  {
    if k - i >= 6 {
      HexShift(c, p, t, i + 2);
      if k - i >= 12 {
        HexShift(c, p, t, i + 8);
        assert c[p + (i + 6)] == t[i + 6] && c[p + (i + 7)] == t[i + 7];
      }
    }
  }

  lemma {:induction false} UnescapeShift(c: Bytes, p: nat, t: Bytes, i: nat, k: nat)
    requires TextAt(c, p, t) && k < |t|
    ensures Unescape(c, p + i, p + k) == Unescape(t, i, k)
    decreases if i < k then k - i else 0
  {
    if i < k {
      assert c[p + i] == t[i] && c[p + (i + 1)] == t[i + 1];
      if t[i] != BACKSLASH {
        UnescapeShift(c, p, t, i + 1, k);
      } else if t[i + 1] == 117 {
        CodepointShift(c, p, t, i, k);
        var u := Codepoint(t, i, k);
        if u.Some? { UnescapeShift(c, p, t, i + u.value.0, k); }
      } else {
        UnescapeShift(c, p, t, i + 2, k);
      }
    }
  }

  /** The quote ends the literal and the escapes up to it are accepted. */
  predicate Scanned(c: Bytes, p: nat, e: nat) {
    CloseQuote(c, p) == Some(e) && Unescape(c, p, e).Some?
  }

  /** Scanned from `p` on, a zero comes first. */
  predicate ZeroFirst(c: Bytes, p: nat, e: nat) {
    Scanned(c, p, e) && Unescape(c, p, e).value != [] && Unescape(c, p, e).value[0] == 0
  }

  /** The malformed escape is read as a zero. */
  lemma ReadsZero(c: Bytes, p: nat, e: nat, i: nat)
    requires p + 6 <= e < |c| && c[p] == BACKSLASH && c[p + 1] == 117 && 2 <= i < 6 && HexValue(c[p + i]).None?
    ensures Unescape(c, p, e) == PutBefore([0], Unescape(c, p + 6, e))
  {
    assert i == 2 || i == 3 || i == 4 || i == 5;
    assert Hex4(c, p + 2) == 0;
    ReadEscape(c, p, e, 6, 0);
  }

  lemma {:induction false} GarbledRead(c: Bytes, p: nat, g: Bytes)
    requires Garbled(g) && TextAt(c, p, g + [QUOTE])
    ensures ZeroFirst(c, p, p + |g|)
  {
    var t := g + [QUOTE];
    CloseShift(c, p, t, 0);
    UnescapeShift(c, p, t, 0, |g|);
    var i :| 2 <= i < 6 && HexValue(g[i]).None?;
    assert t[i] == g[i] && t[0] == g[0] && t[1] == g[1];
    ReadsZero(t, 0, |g|, i);
  }

  lemma {:induction false} CutBefore(a: Bytes, b: Bytes)
    requires b != [] && b[0] == 0
    ensures CutAtZero(a + b) == CutAtZero(a)
  {
    if a == [] {
      assert a + b == b;
    } else {
      assert (a + b)[1..] == a[1..] + b;
      CutBefore(a[1..], b);
    }
  }

  // ----- what is read -----

  lemma FourTexts(c: Bytes, o: nat, a: Bytes, t: Bytes, g: Bytes, b: Bytes)
    requires |a| == 1 && |b| == 1 && TextAt(c, o, a + (t + (g + b)))
    ensures var q := o + 1 + |t|; var e := q + |g|;
      && e < |c| && c[o] == a[0] && c[e] == b[0]
      && TextAt(c, o + 1, t) && TextAt(c, q, g + b)
  {
    var q := o + 1 + |t|;
    TextInTwo(c, o, a, t + (g + b));
    TextInTwo(c, o + 1, t, g + b);
    TextInTwo(c, q, g, b);
    assert c[o + 0] == a[0] && c[q + |g| + 0] == b[0];
  }

  /** The opening quote, the pieces, the closing quote; between these two only what is read as a zero. */
  lemma {:induction false} LiteralStands(c: Bytes, o: nat, l: Literal) returns (q: nat, e: nat)
    requires IsLiteral(l) && TextAt(c, o, LiteralText(l))
    ensures c[o] == QUOTE && Stand(c, o + 1, q, l.pieces) && e + 1 == o + |LiteralText(l)|
    ensures q <= e < |c| && c[e] == QUOTE && (q == e || ZeroFirst(c, q, e))
  {
    q, e := PartsStand(c, o, WrittenAll(l.pieces), l.garbled);
    RestStands(c, q, l.garbled);
  }

  lemma {:induction false} PartsStand(c: Bytes, o: nat, t: Bytes, g: Bytes) returns (q: nat, e: nat)
    requires TextAt(c, o, [QUOTE] + (t + (g + [QUOTE])))
    ensures c[o] == QUOTE && TextAt(c, o + 1, t) && q == o + 1 + |t| && TextAt(c, q, g + [QUOTE])
    ensures e == q + |g| < |c| && c[e] == QUOTE
  {
    q := o + 1 + |t|;
    e := q + |g|;
    FourTexts(c, o, [QUOTE], t, g, [QUOTE]);
  }

  lemma {:induction false} RestStands(c: Bytes, q: nat, g: Bytes)
    requires (g == [] || Garbled(g)) && TextAt(c, q, g + [QUOTE])
    ensures g == [] || ZeroFirst(c, q, q + |g|)
  {
    if g != [] { GarbledRead(c, q, g); }
  }

  lemma {:induction false} StringIs(c: Bytes, o: nat, e: nat, s: Bytes)
    requires o < |c| && c[o] == QUOTE && CloseQuote(c, o + 1) == Some(e) && Unescape(c, o + 1, e) == Some(s)
    ensures ParseString(c, o) == Some((CutAtZero(s), e + 1))
  {
  }

  lemma {:induction false} PiecesScanned(c: Bytes, p: nat, e: nat, xs: seq<Piece>)
    requires Stand(c, p, e, xs) && c[e] == QUOTE
    ensures CloseQuote(c, p) == Some(e) && Unescape(c, p, e) == Some(MeaningAll(xs))
  {
    CloseBehind(c, p, e, xs);
    ReadPieces(c, p, e, e, xs);
    AppendNothing(MeaningAll(xs));
  }

  lemma {:induction false} GarbledScanned(c: Bytes, p: nat, q: nat, e: nat, xs: seq<Piece>)
    requires Stand(c, p, q, xs) && q <= e < |c| && ZeroFirst(c, q, e)
    ensures Scanned(c, p, e) && CutAtZero(Unescape(c, p, e).value) == CutAtZero(MeaningAll(xs))
  {
    CloseBehind(c, p, q, xs);
    ReadPieces(c, p, q, e, xs);
    CutBefore(MeaningAll(xs), Unescape(c, q, e).value);
  }

  lemma {:induction false} PiecesRead(c: Bytes, o: nat, q: nat, e: nat, xs: seq<Piece>)
    requires o < |c| && c[o] == QUOTE && Stand(c, o + 1, q, xs)
    requires q <= e < |c| && c[e] == QUOTE && (q == e || ZeroFirst(c, q, e))
    ensures ParseString(c, o) == Some((CutAtZero(MeaningAll(xs)), e + 1))
  {
    if q == e {
      PiecesScanned(c, o + 1, e, xs);
    } else {
      GarbledScanned(c, o + 1, q, e, xs);
    }
    StringIs(c, o, e, Unescape(c, o + 1, e).value);
  }

  /**
   * parse_string reads every literal, wherever it stands: as the bytes its pieces stand for, up to the first
   * zero among them or the first escape with a malformed digit, which is read as a zero.
   */
  lemma {:induction false} LiteralRead(c: Bytes, o: nat, l: Literal)
    requires IsLiteral(l) && TextAt(c, o, LiteralText(l))
    ensures ParseString(c, o) == Some((StringOf(l), o + |LiteralText(l)|))
  {
    var q, e := LiteralStands(c, o, l);
    PiecesRead(c, o, q, e, l.pieces);
  }

  // ----- what is accepted -----

  predicate MalformedAt(c: Bytes, p: nat, e: nat) {
    p + 6 <= e < |c| && Malformed(Part(c, p, e - p))
  }

  /** The next piece of an accepted literal, or a malformed escape. */
  lemma {:induction false} PieceAccepted(c: Bytes, p: nat, e: nat) returns (x: Piece)
    requires p < e && Scanned(c, p, e) && !MalformedAt(c, p, e)
    ensures WellFormed(x) && TextAt(c, p, Written(x)) && Scanned(c, p + |Written(x)|, e)
  {
    if c[p] != BACKSLASH {
      x := Piece.Plain(c[p]);
    } else if c[p + 1] == 117 {
      x := EscapeAccepted(c, p, e);
      CloseOverPiece(c, p, x);
      ReadPiece(c, p, e, x);
    } else {
      x := LetterAccepted(c, p, e);
      CloseOverPiece(c, p, x);
    }
  }

  lemma {:induction false} LetterAccepted(c: Bytes, p: nat, e: nat) returns (x: Piece)
    requires p < e && Scanned(c, p, e) && c[p] == BACKSLASH && c[p + 1] != 117
    ensures WellFormed(x) && TextAt(c, p, Written(x)) && |Written(x)| == 2 && Unescape(c, p + 2, e).Some?
  {
    EscapeLetters(c[p + 1]);
    var i: nat :| i < |LETTERS| && LETTERS[i] == c[p + 1];
    x := Letter(i);
  }

  lemma {:induction false} UnitStands(c: Bytes, p: nat, e: nat) returns (d: Bytes)
    requires p + 6 <= e < |c| && c[p] == BACKSLASH && c[p + 1] == 117
    ensures d == Part(c, p + 2, 4) && TextAt(c, p, [BACKSLASH, 117] + d) && Hex4(c, p + 2) == Spelled(d)
  {
    d := Part(c, p + 2, 4);
    Hex4Spelled(c, p + 2, d);
  }

  lemma {:induction false} EscapeAccepted(c: Bytes, p: nat, e: nat) returns (x: Piece)
    requires p < e < |c| && c[p] == BACKSLASH && c[p + 1] == 117 && Codepoint(c, p, e).Some? && !MalformedAt(c, p, e)
    ensures WellFormed(x) && TextAt(c, p, Written(x)) && p + |Written(x)| <= e
  {
    var d := UnitStands(c, p, e);
    DigitsThere(c, p, e, d);
    if IsSurrogate(Spelled(d)) {
      var low := UnitStands(c, p + 6, e);
      NoneMalformed(low);
      x := Pair(d, low);
    } else {
      x := Unit(d);
    }
  }

  lemma NoneMalformed(d: Bytes)
    requires |d| == 4 && Spelled(d) != 0
    ensures FourDigits(d)
  {
    forall i | 0 <= i < 4 ensures HexValue(d[i]).Some? {
      assert i == 0 || i == 1 || i == 2 || i == 3;
    }
  }

  lemma DigitsThere(c: Bytes, p: nat, e: nat, d: Bytes)
    requires p + 6 <= e < |c| && c[p] == BACKSLASH && c[p + 1] == 117 && !MalformedAt(c, p, e)
    requires d == Part(c, p + 2, 4)
    ensures FourDigits(d)
  {
    var g := Part(c, p, e - p);
    assert g[0] == c[p + 0] && g[1] == c[p + 1];
    forall i | 0 <= i < 4 ensures HexValue(d[i]).Some? {
      assert d[i] == c[p + 2 + i] == g[2 + i];
    }
  }

  lemma {:induction false} PiecesAccepted(c: Bytes, p: nat, e: nat) returns (xs: seq<Piece>, q: nat)
    requires p <= e && Scanned(c, p, e)
    ensures Stand(c, p, q, xs) && q <= e && Scanned(c, q, e) && (q == e || MalformedAt(c, q, e))
    decreases e - p
  {
    if p == e || MalformedAt(c, p, e) {
      xs, q := [], p;
    } else {
      var x := PieceAccepted(c, p, e);
      var ys;
      ys, q := PiecesAccepted(c, p + |Written(x)|, e);
      xs := [x] + ys;
      PieceBefore(c, p, q, x, ys);
    }
  }

  lemma {:induction false} PieceBefore(c: Bytes, p: nat, q: nat, x: Piece, ys: seq<Piece>)
    requires WellFormed(x) && TextAt(c, p, Written(x)) && Stand(c, p + |Written(x)|, q, ys)
    ensures Stand(c, p, q, [x] + ys)
  {
    assert ([x] + ys)[1..] == ys;
    TextJoined(c, p, Written(x), WrittenAll(ys));
  }

  lemma {:induction false} GarbledThere(c: Bytes, q: nat, e: nat) returns (g: Bytes)
    requires Scanned(c, q, e) && MalformedAt(c, q, e)
    ensures Garbled(g) && TextAt(c, q, g + [QUOTE]) && e == q + |g|
  {
    g := Part(c, q, e - q);
    var t := g + [QUOTE];
    CloseShift(c, q, t, 0);
    UnescapeShift(c, q, t, 0, |g|);
  }

  /** Nothing else is accepted: where parse_string reads a string, a literal stands that stands for it. */
  lemma {:induction false} LiteralAccepted(c: Bytes, o: nat) returns (l: Literal)
    requires ParseString(c, o).Some?
    ensures IsLiteral(l) && TextAt(c, o, LiteralText(l))
    ensures ParseString(c, o) == Some((StringOf(l), o + |LiteralText(l)|))
  {
    var e := CloseQuote(c, o + 1).value;
    var xs, q := PiecesAccepted(c, o + 1, e);
    if q == e {
      l := Literal(xs, []);
      assert [] + [QUOTE] == [QUOTE];
    } else {
      var g := GarbledThere(c, q, e);
      l := Literal(xs, g);
    }
    TextJoined(c, o + 1, WrittenAll(xs), l.garbled + [QUOTE]);
    TextJoined(c, o, [QUOTE], WrittenAll(xs) + (l.garbled + [QUOTE]));
    LiteralRead(c, o, l);
  }

  // ----- scalar values -----

  /** The two digits of a byte. */
  function TwoDigits(n: nat): (r: Bytes)
    requires n < 256
    ensures |r| == 2
  {
    [HexDigit(n / 16), HexDigit(n % 16)]
  }

  /** The four digits of a number. */
  function HexText(n: nat): Bytes
    requires n < 0x10000
  {
    TwoDigits(n / 256) + TwoDigits(n % 256)
  }

  lemma {:induction false} TwoBack(n: nat)
    requires n < 256
    ensures var d := TwoDigits(n);
      && HexValue(d[0]).Some? && HexValue(d[1]).Some? && 16 * HexValue(d[0]).value + HexValue(d[1]).value == n
  {
    HexRoundTrip(n / 16);
    HexRoundTrip(n % 16);
  }

  lemma {:induction false} SpelledBack(n: nat)
    requires n < 0x10000
    ensures Spelled(HexText(n)) == n && FourDigits(HexText(n))
  {
    var d, hi, lo := HexText(n), n / 256, n % 256;
    TwoBack(hi);
    TwoBack(lo);
    assert d[0] == TwoDigits(hi)[0] && d[1] == TwoDigits(hi)[1] && d[2] == TwoDigits(lo)[0] && d[3] == TwoDigits(lo)[1];
    assert d == [d[0], d[1], d[2], d[3]];
    assert n == 256 * hi + lo;
  }

  /** A scalar value as an escape, or as a pair if it needs more than 16 bits. */
  function ScalarPiece(cp: nat): Piece
    requires cp <= 0x10FFFF
  {
    if cp < 0x10000 then Unit(HexText(cp))
    else Pair(HexText(0xD800 + (cp - 0x10000) / 0x400), HexText(0xDC00 + (cp - 0x10000) % 0x400))
  }

  /** So written it stands in a literal for its UTF-8 bytes. */
  lemma ScalarRead(cp: nat)
    requires cp <= 0x10FFFF && !IsSurrogate(cp)
    ensures WellFormed(ScalarPiece(cp)) && Meaning(ScalarPiece(cp)) == Utf8(cp)
  {
    if cp < 0x10000 {
      SpelledBack(cp);
    } else {
      var h, l := 0xD800 + (cp - 0x10000) / 0x400, 0xDC00 + (cp - 0x10000) % 0x400;
      HighLow(h, l, cp);
      SpelledBack(h);
      SpelledBack(l);
      CombinedIs(h, l, cp);
    }
  }

  lemma {:induction false} MalformedRead(c: Bytes, e: nat, d: Bytes, ys: seq<Piece>)
    requires |d| == 4 && QUOTE !in d && BACKSLASH !in d && !FourDigits(d) && TextAt(c, 0, [BACKSLASH, 117] + d)
    requires Stand(c, 6, e, ys) && c[e] == QUOTE
    ensures Scanned(c, 0, e)
  {
    CloseOverUnit(c, 0, d);
    CloseBehind(c, 6, e, ys);
    ReadPieces(c, 6, e, e, ys);
    ReadsUnitZero(c, e, d);
  }

  lemma {:induction false} ReadsUnitZero(c: Bytes, e: nat, d: Bytes)
    requires |d| == 4 && !FourDigits(d) && TextAt(c, 0, [BACKSLASH, 117] + d) && 6 <= e < |c|
    ensures Unescape(c, 0, e) == PutBefore([0], Unescape(c, 6, e))
  {
    var i :| 0 <= i < 4 && HexValue(d[i]).None?;
    UnitAt(c, 0, d);
    assert c[2 + i] == d[i];
    ReadsZero(c, 0, e, 2 + i);
  }

  lemma MalformedStart(d: Bytes, w: Bytes)
    requires |d| == 4 && !FourDigits(d)
    ensures Malformed(([BACKSLASH, 117] + d) + w)
  {
    var g := ([BACKSLASH, 117] + d) + w;
    var i :| 0 <= i < 4 && HexValue(d[i]).None?;
    assert g[2 + i] == d[i];
  }

  lemma TextParts(u: Bytes, w: Bytes, end: Bytes)
    ensures var c := (u + w) + end;
      TextAt(c, 0, u) && TextAt(c, |u|, w) && TextAt(c, |u| + |w|, end) && |c| == |u| + |w| + |end|
  {
  }

  /** A malformed escape and any pieces behind it: what follows is passed over. */
  lemma {:induction false} MalformedDigit(d: Bytes, ys: seq<Piece>)
    requires |d| == 4 && QUOTE !in d && BACKSLASH !in d && !FourDigits(d) && AllWellFormed(ys)
    ensures Garbled(([BACKSLASH, 117] + d) + WrittenAll(ys))
  {
    var u, w := [BACKSLASH, 117] + d, WrittenAll(ys);
    var c := (u + w) + [QUOTE];
    MalformedStart(d, w);
    TextParts(u, w, [QUOTE]);
    assert c[6 + |w| + 0] == [QUOTE][0];
    MalformedRead(c, 6 + |w|, d, ys);
  }
}
