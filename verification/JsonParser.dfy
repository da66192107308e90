// cJSON's parse buffer: the offset moves over the text and every function reads what the grammar says.
module JsonParser {
  import opened Wrappers
  import opened Sequences
  import opened CText
  import opened JsonTree
  import opened Octets
  import opened Unicode
  import opened JsonText
  import opened JsonGrammar

  // ----- the room parse_string allocates -----

  /** The backslash pairs of the first scan, begun at `i`, that start at `p` or later. */
  function PairsFrom(c: Bytes, i: nat, p: nat): nat
    decreases |c| - i
  {
    if i >= |c| || c[i] == QUOTE then 0
    else if c[i] == BACKSLASH then (if i + 1 >= |c| then 0 else (if i >= p then 1 else 0) + PairsFrom(c, i + 2, p))
    else PairsFrom(c, i + 1, p)
  }

  lemma {:induction false} AllPairs(c: Bytes, i: nat, p: nat)
    requires p <= i
    ensures PairsFrom(c, i, p) == SkippedBytes(c, i)
    decreases |c| - i
  {
    if i < |c| && c[i] != QUOTE {
      AllPairs(c, if c[i] == BACKSLASH then i + 2 else i + 1, p);
    }
  }

  lemma {:induction false} PairsOverByte(c: Bytes, i: nat, p: nat)
    requires p < |c| && c[p] != BACKSLASH
    ensures PairsFrom(c, i, p) == PairsFrom(c, i, p + 1)
    decreases |c| - i
  {
    if i < |c| && c[i] != QUOTE {
      PairsOverByte(c, if c[i] == BACKSLASH then i + 2 else i + 1, p);
    }
  }

  /** At most one pair starts in any two neighbouring bytes. */
  lemma {:induction false} PairsOverTwo(c: Bytes, i: nat, p: nat)
    ensures PairsFrom(c, i, p) <= 1 + PairsFrom(c, i, p + 2)
    decreases |c| - i
  {
    if i < |c| && c[i] != QUOTE {
      if c[i] != BACKSLASH {
        PairsOverTwo(c, i + 1, p);
      } else if i < p {
        PairsOverTwo(c, i + 2, p);
      } else {
        AllPairs(c, i + 2, p);
        AllPairs(c, i + 2, p + 2);
      }
    }
  }

  lemma {:induction false} PairsOver(c: Bytes, i: nat, p: nat, k: nat)
    ensures PairsFrom(c, i, p) <= k + PairsFrom(c, i, p + 2 * k)
    decreases k
  {
    if k > 0 {
      PairsOverTwo(c, i, p);
      PairsOver(c, i, p + 2, k - 1);
    }
  }

  lemma {:induction false} NoPairsBehind(c: Bytes, i: nat, p: nat)
    requires CloseQuote(c, i).Some? && p >= CloseQuote(c, i).value
    ensures PairsFrom(c, i, p) == 0
    decreases |c| - i
  {
    if c[i] != QUOTE {
      NoPairsBehind(c, if c[i] == BACKSLASH then i + 2 else i + 1, p);
    }
  }

  lemma {:induction false} PairsLeft(c: Bytes, i: nat, p: nat, e: nat)
    requires CloseQuote(c, i) == Some(e) && i <= p <= e + 1
    ensures PairsFrom(c, i, p) <= e + 1 - p
    decreases e + 1 - p
  {
    if p >= e {
      NoPairsBehind(c, i, p);
    } else if p + 1 == e {
      PairsOverTwo(c, i, p);
      NoPairsBehind(c, i, p + 2);
    } else {
      PairsOverTwo(c, i, p);
      PairsLeft(c, i, p + 2, e);
    }
  }

  /** What the decoder writes from `p` on fits in the bytes left, less the pairs the first scan took off. */
  lemma {:induction false} DecodedFits(c: Bytes, i: nat, p: nat, e: nat)
    requires CloseQuote(c, i) == Some(e) && i <= p <= e + 1
    ensures Unescape(c, p, e).Some? ==> |Unescape(c, p, e).value| + PairsFrom(c, i, p) <= e + 1 - p
    decreases e + 1 - p
  {
    if p >= e {
      NoPairsBehind(c, i, p);
    } else if c[p] != BACKSLASH {
      PairsOverByte(c, i, p);
      DecodedFits(c, i, p + 1, e);
    } else if c[p + 1] == 117 {
      var u := Utf16Literal(c, p, e);
      if u.Some? {
        PairsOver(c, i, p, u.value.0 / 2);
        DecodedFits(c, i, p + u.value.0, e);
      }
    } else {
      PairsOverTwo(c, i, p);
      DecodedFits(c, i, p + 2, e);
    }
  }

  /** The size parse_string asks for, with the terminating zero. */
  function Allocation(c: Bytes, o: nat, e: nat): int {
    e - o - SkippedBytes(c, o + 1) + 1
  }

  /** On any input, surrogate pairs and malformed digits included, the decoded text and its zero fit the allocation. */
  lemma {:induction false} DecoderStaysInside(c: Bytes, o: nat, e: nat)
    requires CloseQuote(c, o + 1) == Some(e)
    ensures Allocation(c, o, e) > 0
    ensures Unescape(c, o + 1, e).Some? ==> |Unescape(c, o + 1, e).value| < Allocation(c, o, e)
  {
    DecodedFits(c, o + 1, o + 1, e);
    AllPairs(c, o + 1, o + 1);
    AllocationPositive(c, o + 1, e);
  }

  lemma {:induction false} AllocationPositive(c: Bytes, i: nat, e: nat)
    requires CloseQuote(c, i) == Some(e)
    ensures 2 * SkippedBytes(c, i) <= e - i
    decreases |c| - i
  {
    if c[i] != QUOTE {
      AllocationPositive(c, if c[i] == BACKSLASH then i + 2 else i + 1, e);
    }
  }

  /** After decoding the bytes before `p` the decoder has written `at` bytes at most this many. */
  predicate Fits(c: Bytes, o: nat, p: nat, e: nat, at: nat) {
    o < p <= e + 1 && at + SkippedBytes(c, o + 1) <= p - (o + 1) + PairsFrom(c, o + 1, p)
  }

  lemma {:induction false} FitsStart(c: Bytes, o: nat, e: nat)
    requires CloseQuote(c, o + 1) == Some(e)
    ensures Fits(c, o, o + 1, e, 0)
  {
    AllPairs(c, o + 1, o + 1);
  }

  lemma {:induction false} FitsByte(c: Bytes, o: nat, p: nat, e: nat, at: nat)
    requires Fits(c, o, p, e, at) && p < e < |c| && c[p] != BACKSLASH
    ensures Fits(c, o, p + 1, e, at + 1)
  {
    PairsOverByte(c, o + 1, p);
  }

  lemma {:induction false} FitsEscape(c: Bytes, o: nat, p: nat, e: nat, at: nat)
    requires Fits(c, o, p, e, at) && p < e
    ensures Fits(c, o, p + 2, e, at + 1)
  {
    PairsOverTwo(c, o + 1, p);
  }

  lemma {:induction false} FitsPairs(c: Bytes, o: nat, p: nat, e: nat, at: nat, k: nat, wrote: nat)
    requires Fits(c, o, p, e, at) && p + 2 * k <= e && wrote <= k
    ensures Fits(c, o, p + 2 * k, e, at + wrote)
  {
    PairsOver(c, o + 1, p, k);
  }

  lemma {:induction false} FitsLiteral(c: Bytes, o: nat, p: nat, e: nat, at: nat)
    requires Fits(c, o, p, e, at) && p <= e < |c| && Utf16Literal(c, p, e).Some?
    ensures var u := Utf16Literal(c, p, e).value; Fits(c, o, p + u.0, e, at + |u.1|)
  {
    var u := Utf16Literal(c, p, e).value;
    FitsPairs(c, o, p, e, at, if u.0 == 6 then 3 else 6, |u.1|);
  }

  lemma {:induction false} FitsInside(c: Bytes, o: nat, p: nat, e: nat, at: nat)
    requires CloseQuote(c, o + 1) == Some(e) && Fits(c, o, p, e, at)
    ensures at < Allocation(c, o, e)
  {
    PairsLeft(c, o + 1, p, e);
  }

  lemma {:induction false} LiteralInside(c: Bytes, o: nat, p: nat, e: nat, at: nat)
    requires CloseQuote(c, o + 1) == Some(e) && Fits(c, o, p, e, at) && p <= e
    ensures var u := Utf16Literal(c, p, e);
      u.Some? ==> Fits(c, o, p + u.value.0, e, at + |u.value.1|) && at + |u.value.1| < Allocation(c, o, e)
  {
    var u := Utf16Literal(c, p, e);
    if u.Some? {
      FitsLiteral(c, o, p, e, at);
      FitsInside(c, o, p + u.value.0, e, at + |u.value.1|);
    }
  }

  lemma {:induction false} CutAtTerminator(b: Bytes, end: nat)
    requires end < |b| && b[end] == 0
    ensures CutAtZero(b) == CutAtZero(b[..end])
    decreases end
  {
    if end > 0 && b[0] != 0 {
      CutAtTerminator(b[1..], end - 1);
      assert b[1..][..end - 1] == b[..end][1..];
    }
  }

  // ----- the parse buffer -----

  function Prepend<T>(done: seq<T>, r: Option<(seq<T>, nat)>): Option<(seq<T>, nat)> {
    if r.None? then None else Some((done + r.value.0, r.value.1))
  }

  lemma PrependOne<T>(done: seq<T>, x: T, r: Option<(seq<T>, nat)>)
    ensures Prepend(done, Prepend([x], r)) == Prepend(done + [x], r)
  {
    if r.Some? { assert done + ([x] + r.value.0) == (done + [x]) + r.value.0; }
  }

  /** Behind an element the list goes on after a comma, ends at its bracket, or is malformed. */
  function ItemsAfter(c: Bytes, p: nat, depth: nat): Option<(seq<Json>, nat)>
    requires p <= |c|
  {
    var after := Skip(c, p);
    if after >= |c| then None
    else if c[after] == COMMA then ParseItems(c, after + 1, depth)
    else if c[after] == RBRACKET then Some(([], after + 1)) else None
  }

  predicate ItemsOverrunAfter(c: Bytes, p: nat, depth: nat)
    requires p <= |c|
  {
    var after := Skip(c, p); after < |c| && c[after] == COMMA && ItemsOverrun(c, after + 1, depth)
  }

  lemma {:induction false} ItemsTurn(c: Bytes, o: nat, depth: nat, v: Json, p: nat)
    requires o <= |c| && p <= |c| && ParseValue(c, Skip(c, o), depth) == Some((v, p))
    ensures ParseItems(c, o, depth) == Prepend([v], ItemsAfter(c, p, depth))
  {
    PrependAll([v], Skip(c, p) + 1);
  }

  lemma {:induction false} ItemsOverrunTurn(c: Bytes, o: nat, depth: nat, v: Json, p: nat)
    requires o <= |c| && p <= |c| && ParseValue(c, Skip(c, o), depth) == Some((v, p))
    ensures ItemsOverrun(c, o, depth) <==> ValueOverruns(c, Skip(c, o), depth) || ItemsOverrunAfter(c, p, depth)
  {
  }

  function MembersAfter(c: Bytes, p: nat, depth: nat): Option<(seq<Member>, nat)>
    requires p <= |c|
  {
    var after := Skip(c, p);
    if after >= |c| then None
    else if c[after] == COMMA then ParseMembers(c, after + 1, depth)
    else if c[after] == RBRACE then Some(([], after + 1)) else None
  }

  predicate MembersOverrunAfter(c: Bytes, p: nat, depth: nat)
    requires p <= |c|
  {
    var after := Skip(c, p); after < |c| && c[after] == COMMA && MembersOverrun(c, after + 1, depth)
  }

  lemma {:induction false} MembersTurn(c: Bytes, o: nat, depth: nat, m: Member, p: nat)
    requires o <= |c| && p <= |c| && ParseMember(c, o, depth) == Some((m, p))
    ensures ParseMembers(c, o, depth) == Prepend([m], MembersAfter(c, p, depth))
  {
    PrependAll([m], Skip(c, p) + 1);
  }

  lemma {:induction false} MembersOverrunTurn(c: Bytes, o: nat, depth: nat, m: Member, p: nat)
    requires o <= |c| && p <= |c| && ParseMember(c, o, depth) == Some((m, p))
    ensures MembersOverrun(c, o, depth) <==> MemberOverruns(c, o, depth) || MembersOverrunAfter(c, p, depth)
  {
  }

  /** A literal opens nothing. */
  lemma {:induction false} NoContainer(c: Bytes, o: nat, depth: nat)
    requires o <= |c|
    ensures TextAt(c, o, NULL_TEXT) || TextAt(c, o, FALSE_TEXT) || TextAt(c, o, TRUE_TEXT) ==>
      !ValueOverruns(c, o, depth)
  {
    LiteralFirst(c, o);
  }

  // ----- the bytes of a code point -----

  /** What is left of a code point when `n` groups of six bits are taken from its end. */
  function Sextets(cp: nat, n: nat): nat {
    if n == 0 then cp else Sextets(cp, n - 1) / 64
  }

  lemma SomeSextets(cp: nat)
    ensures Sextets(cp, 1) == cp / 64 && Sextets(cp, 2) == cp / 4096 && Sextets(cp, 3) == cp / 262144
  {
    assert cp / 64 / 64 == cp / 4096 && cp / 4096 / 64 == cp / 262144;
  }

  /** Each byte of the UTF-8 form holds one group, the first what is left, with the mark of the length. */
  lemma Utf8Bytes(cp: nat, mark: nat)
    requires cp <= 0x10FFFF
    requires mark == if cp < 0x80 then 0 else if cp < 0x800 then 0xC0 else if cp < 0x10000 then 0xE0 else 0xF0
    ensures var u := Utf8(cp);
      && forall k {:trigger u[k]} :: 0 < k < |u| ==> u[k] as int == 0x80 + Sextets(cp, |u| - 1 - k) % 64
    ensures mark + Sextets(cp, |Utf8(cp)| - 1) == Utf8(cp)[0] as int
  {
    SomeSextets(cp);
  }

  class ParseBuffer {
    const content: Bytes
    /** The byte in memory behind the content, and whether it has been read. */
    const beyond: Byte
    var outside: bool
    var offset: nat
    var depth: nat

    constructor (text: Bytes, beyond: Byte)
      ensures content == text && this.beyond == beyond && offset == 0 && depth == 0 && !outside
    {
      content, this.beyond := text, beyond;
      offset, depth, outside := 0, 0, false;
    }

    method SkipWhitespace()
      modifies this`offset
      ensures offset == Skip(content, old(offset))
    {
      if offset < |content| {
        while offset < |content| && content[offset] <= 32
          invariant offset <= |content| && SkipFrom(content, offset) == SkipFrom(content, old(offset))
          decreases |content| - offset
        {
          offset := offset + 1;
        }
        if offset == |content| {
          offset := offset - 1;
        }
      }
    }

    /** strncmp of the bytes at the offset with a literal, after can_read. */
    method Reads(text: Bytes) returns (same: bool)
      ensures same == TextAt(content, offset, text)
    {
      same := offset + |text| <= |content|;
      var i := 0;
      while same && i < |text|
        invariant i <= |text| && (same ==> offset + |text| <= |content|)
        invariant same ==> forall k {:trigger text[k]} :: 0 <= k < i ==> content[offset + k] == text[k]
        invariant !same ==> !TextAt(content, offset, text)
        decreases |text| - i, same
      {
        if content[offset + i] != text[i] {
          same := false;
        } else {
          i := i + 1;
        }
      }
    }

    // ----- strings -----

    method ParseHex4(p: nat) returns (h: nat)
      requires p + 4 <= |content|
      ensures h == Hex4(content, p)
    {
      h := 0;
      var valid := true;
      var i := 0;
      while i < 4 && valid
        invariant i <= 4
        invariant !valid ==> Hex4(content, p) == 0
        invariant valid ==> forall k {:trigger content[k]} :: p <= k < p + i ==> HexValue(content[k]).Some?
        invariant valid && i == 0 ==> h == 0
        invariant valid && i == 1 ==> h == 16 * HexValue(content[p]).value
        invariant valid && i == 2 ==> h == 16 * (16 * HexValue(content[p]).value + HexValue(content[p + 1]).value)
        invariant valid && i == 3 ==>
          h == 16 * (16 * (16 * HexValue(content[p]).value + HexValue(content[p + 1]).value)
                     + HexValue(content[p + 2]).value)
        invariant valid && i == 4 ==> h == Hex4(content, p)
        decreases 4 - i, valid
      {
        var digit := HexValue(content[p + i]);
        if digit.None? {
          valid := false;
        } else {
          h := h + digit.value;
          if i < 3 {
            h := 16 * h;
          }
          i := i + 1;
        }
      }
      if !valid {
        h := 0;
      }
    }

    /** The length of the UTF-8 form and the mark in its first byte. */
    method Utf8Form(codepoint: nat) returns (length: nat, mark: nat)
      requires codepoint <= 0x10FFFF
      ensures length == |Utf8(codepoint)|
      ensures forall k {:trigger Utf8(codepoint)[k]} :: 0 < k < length ==>
        Utf8(codepoint)[k] as int == 0x80 + Sextets(codepoint, length - 1 - k) % 64
      ensures mark + Sextets(codepoint, length - 1) == Utf8(codepoint)[0] as int
    {
      length, mark := 1, 0;
      if codepoint < 0x80 {
      } else if codepoint < 0x800 {
        length, mark := 2, 0xC0;
      } else if codepoint < 0x10000 {
        length, mark := 3, 0xE0;
      } else {
        length, mark := 4, 0xF0;
      }
      Utf8Bytes(codepoint, mark);
    }

    /** Encodes a code point at `at`: continuation bytes from the last to the second, then the first. */
    method WriteUtf8(codepoint: nat, output: array<Byte>, at: nat) returns (end: nat)
      requires codepoint <= 0x10FFFF && at + |Utf8(codepoint)| <= output.Length
      modifies output
      ensures end == at + |Utf8(codepoint)| && output[at..end] == Utf8(codepoint)
      ensures forall k :: 0 <= k < at ==> output[k] == old(output[k])
    {
      var length, mark := Utf8Form(codepoint);
      var position, cp := length - 1, codepoint;
      ghost var u := Utf8(codepoint);
      while position > 0
        invariant 0 <= position < length && cp == Sextets(codepoint, length - 1 - position)
        invariant forall k {:trigger u[k]} :: position < k < length ==> output[at + k] == u[k]
        invariant forall k :: 0 <= k < at ==> output[k] == old(output[k])
      {
        output[at + position] := (0x80 + cp % 64) as Byte;
        cp := cp / 64;
        position := position - 1;
      }
      output[at] := (mark + cp) as Byte;
      end := at + length;
      assert forall k :: 0 <= k < length ==> output[at..end][k] == u[k];
    }

    /** The code point of an escape and its length, 0 if it is malformed. */
    method ReadCodepoint(p: nat, e: nat) returns (sequence: nat, codepoint: nat)
      requires p <= e < |content|
      ensures var u := Codepoint(content, p, e);
        if u.None? then sequence == 0 else (sequence, codepoint) == u.value
    {
      sequence, codepoint := 0, 0;
      if e - p >= 6 {
        var first := ParseHex4(p + 2);
        if 0xDC00 <= first <= 0xDFFF {
        } else if 0xD800 <= first <= 0xDBFF {
          if e - p >= 12 && content[p + 6] == BACKSLASH && content[p + 7] == 117 {
            var second := ParseHex4(p + 8);
            if 0xDC00 <= second <= 0xDFFF {
              sequence, codepoint := 12, 0x10000 + (first % 0x400) * 0x400 + second % 0x400;
            }
          }
        } else {
          sequence, codepoint := 6, first;
        }
      }
    }

    /** utf16_literal_to_utf8: the length of the escape, 0 if it is malformed. */
    method Utf16LiteralToUtf8(p: nat, e: nat, output: array<Byte>, at: nat) returns (sequence: nat, end: nat)
      requires p <= e < |content|
      requires var u := Utf16Literal(content, p, e); u.Some? ==> at + |u.value.1| <= output.Length
      modifies output
      ensures var u := Utf16Literal(content, p, e);
        if u.None? then sequence == 0
        else sequence == u.value.0 && end == at + |u.value.1| && output[at..end] == u.value.1
      ensures forall k :: 0 <= k < at && k < output.Length ==> output[k] == old(output[k])
    {
      end := at;
      var codepoint;
      sequence, codepoint := ReadCodepoint(p, e);
      if sequence > 0 {
        end := WriteUtf8(codepoint, output, at);
      }
    }

    /** The first scan: the closing quote and the number of backslash pairs before it. */
    method FindCloseQuote() returns (ok: bool, e: nat, skipped: nat)
      requires offset <= |content|
      ensures ok == CloseQuote(content, offset + 1).Some?
      ensures ok ==> e == CloseQuote(content, offset + 1).value && skipped == SkippedBytes(content, offset + 1)
    {
      ok, e, skipped := true, offset + 1, 0;
      while ok && e < |content| && content[e] != QUOTE
        invariant offset < e
        invariant ok ==> CloseQuote(content, offset + 1) == CloseQuote(content, e)
        invariant !ok ==> CloseQuote(content, offset + 1).None?
        invariant ok ==> SkippedBytes(content, offset + 1) == skipped + SkippedBytes(content, e)
        decreases |content| - e, ok
      {
        if content[e] == BACKSLASH {
          if e + 1 >= |content| {
            ok := false;
          } else {
            skipped := skipped + 1;
            e := e + 2;
          }
        } else {
          e := e + 1;
        }
      }
      ok := ok && e < |content|;
    }

    /** One byte or escape sequence of the second scan; its length, or 0 if it is malformed. */
    method UnescapeOne(ghost o: nat, p: nat, e: nat, output: array<Byte>, at: nat) returns (sequence: nat, end: nat)
      requires CloseQuote(content, o + 1) == Some(e) && p < e
      requires Fits(content, o, p, e, at) && output.Length == Allocation(content, o, e)
      modifies output
      ensures sequence == 0 ==> Unescape(content, p, e).None?
      ensures sequence > 0 ==> at <= end < output.Length && Fits(content, o, p + sequence, e, end)
      ensures sequence > 0 ==> Unescape(content, p, e) == PutBefore(output[at..end], Unescape(content, p + sequence, e))
      ensures forall k :: 0 <= k < at && k < output.Length ==> output[k] == old(output[k])
    {
      if content[p] != BACKSLASH {
        FitsByte(content, o, p, e, at);
        FitsInside(content, o, p + 1, e, at + 1);
        output[at] := content[p];
        sequence, end := 1, at + 1;
        assert output[at..end] == [content[p]];
      } else if content[p + 1] == 117 {
        LiteralInside(content, o, p, e, at);
        sequence, end := Utf16LiteralToUtf8(p, e, output, at);
      } else {
        var b := EscapedByte(content[p + 1]);
        sequence, end := 0, at;
        if b.Some? {
          FitsEscape(content, o, p, e, at);
          FitsInside(content, o, p + 2, e, at + 1);
          output[at] := b.value;
          sequence, end := 2, at + 1;
          assert output[at..end] == [b.value];
        }
      }
    }

    /** The second scan, into a buffer of exactly the size the first scan calls for. */
    method UnescapeInto(o: nat, e: nat, output: array<Byte>) returns (ok: bool, end: nat)
      requires CloseQuote(content, o + 1) == Some(e) && output.Length == Allocation(content, o, e)
      modifies output
      ensures ok == Unescape(content, o + 1, e).Some?
      ensures ok ==> end < output.Length && output[..end] == Unescape(content, o + 1, e).value
    {
      var p := o + 1;
      ok, end := true, 0;
      FitsStart(content, o, e);
      FitsInside(content, o, p, e, end);
      NothingBefore(Unescape(content, p, e));
      while ok && p < e
        invariant o < p && end < output.Length
        invariant ok ==> Fits(content, o, p, e, end)
        invariant ok ==> Unescape(content, o + 1, e) == PutBefore(output[..end], Unescape(content, p, e))
        invariant !ok ==> Unescape(content, o + 1, e).None?
        decreases e + 1 - p, ok
      {
        ghost var done := output[..end];
        var sequence, next := UnescapeOne(o, p, e, output, end);
        if sequence == 0 {
          ok := false;
        } else {
          TwiceBefore(done, output[end..next], Unescape(content, p + sequence, e));
          assert output[..next] == done + output[end..next];
          p, end := p + sequence, next;
        }
      }
      assert output[..end] + [] == output[..end];
    }

    /** The byte at the offset, read without asking whether it is one of the content. */
    method PeekUnchecked() returns (b: Byte)
      requires offset <= |content|
      modifies this`outside
      ensures b == if offset < |content| then content[offset] else beyond
      ensures outside == (old(outside) || offset == |content|)
    {
      if offset < |content| {
        b := content[offset];
      } else {
        b, outside := beyond, true;
      }
    }

    /** parse_string. Whatever the byte behind the content is, it makes no string; but it is read. */
    method ParseString() returns (ok: bool, text: CString)
      requires offset <= |content|
      modifies this`offset, this`outside
      ensures outside == (old(outside) || old(offset) == |content|)
      ensures ok == JsonGrammar.ParseString(content, old(offset)).Some?
      ensures ok ==> JsonGrammar.ParseString(content, old(offset)) == Some((text, offset))
    {
      ok, text := false, [];
      var first := PeekUnchecked();
      if first == QUOTE {
        var found, e, skipped := FindCloseQuote();
        if found {
          DecoderStaysInside(content, offset, e);
          var output := new Byte[e - offset - skipped + 1];
          var end;
          ok, end := UnescapeInto(offset, e, output);
          if ok {
            output[end] := 0;
            CutAtTerminator(output[..], end);
            assert output[..][..end] == output[..end];
            text := CutAtZero(output[..]);
            offset := e + 1;
          }
        }
      }
    }

    // ----- values -----

    /** The loop of parse_number: what may belong to a number is copied, at most 63 bytes. */
    method CopyNumber() returns (text: Bytes)
      requires offset <= |content|
      ensures text == NumberText(content, offset)
    {
      var numberCString := new Byte[NUMBER_BUFFER + 1];
      var i := 0;
      ghost var limit := NumberLimit(content, offset);
      while i < NUMBER_BUFFER && offset + i < |content| && NumberByte(content[offset + i])
        invariant i <= NUMBER_BUFFER && offset + i <= limit
        invariant CopyEnd(content, offset, limit) == CopyEnd(content, offset + i, limit)
        invariant forall k :: 0 <= k < i ==> numberCString[k] == content[offset + k]
      {
        numberCString[i] := content[offset + i];
        i := i + 1;
      }
      numberCString[i] := 0;
      text := numberCString[..i];
    }

    /** parse_number. The value strtod finds is that of the text, without rounding. */
    method ParseNumber() returns (ok: bool, value: Json)
      requires offset < |content|
      modifies this`offset
      ensures ok == JsonGrammar.ParseNumber(content, old(offset)).Some?
      ensures ok ==> JsonGrammar.ParseNumber(content, old(offset)) == Some((value, offset))
    {
      var text := CopyNumber();
      var number := NumberOf(text);
      ok, value := number.Some?, Invalid;
      if ok {
        value, offset := number.value.0, offset + number.value.1;
      }
    }

    /** parse_value. */
    method ParseValue() returns (ok: bool, value: Json)
      requires offset <= |content|
      modifies this
      ensures outside == (old(outside) || ValueOverruns(content, old(offset), old(depth)))
      ensures ok == JsonGrammar.ParseValue(content, old(offset), old(depth)).Some?
      ensures ok ==>
        JsonGrammar.ParseValue(content, old(offset), old(depth)) == Some((value, offset)) && depth == old(depth)
      decreases |content| - offset, 1
    {
      ok, value := true, Invalid;
      var isNull := Reads(NULL_TEXT);
      var isFalse := Reads(FALSE_TEXT);
      var isTrue := Reads(TRUE_TEXT);
      NoContainer(content, offset, depth);
      if isNull {
        value, offset := Null, offset + 4;
      } else if isFalse {
        value, offset := False, offset + 5;
      } else if isTrue {
        value, offset := True, offset + 4;
      } else if offset >= |content| {
        ok := false;
      } else if content[offset] == QUOTE {
        var text;
        ok, text := ParseString();
        value := Text(text);
      } else if content[offset] == HYPHEN || 48 <= content[offset] <= 57 {
        ok, value := ParseNumber();
      } else if content[offset] == LBRACKET {
        var items;
        ok, items := ParseArray();
        value := Array(items);
      } else if content[offset] == LBRACE {
        var members;
        ok, members := ParseObject();
        value := Object(members);
      } else {
        ok := false;
      }
    }

    /**
     * Into a list: whether it is empty, and otherwise whether anything follows; then the offset is one byte
     * before it.
     */
    method Open(close: Byte) returns (empty: bool, inside: bool)
      requires offset < |content|
      modifies this`offset, this`depth
      ensures depth == old(depth) + 1
      ensures var first := Skip(content, old(offset) + 1);
        && empty == (first < |content| && content[first] == close) && inside == (first < |content| && !empty)
        && offset == if inside then first - 1 else first
    {
      depth := depth + 1;
      offset := offset + 1;
      SkipWhitespace();
      empty := offset < |content| && content[offset] == close;
      inside := offset < |content| && !empty;
      if inside {
        offset := offset - 1;
      }
    }

    /** parse_array. */
    method ParseArray() returns (ok: bool, items: seq<Json>)
      requires offset < |content| && content[offset] == LBRACKET
      modifies this
      ensures outside == (old(outside) || ArrayOverruns(content, old(offset), old(depth)))
      ensures ok == JsonGrammar.ParseArray(content, old(offset), old(depth)).Some?
      ensures ok ==>
        JsonGrammar.ParseArray(content, old(offset), old(depth)) == Some((items, offset)) && depth == old(depth)
      decreases |content| - offset, 0
    {
      ok, items := false, [];
      if depth < NESTING_LIMIT {
        ghost var start := offset;
        var empty, inside := Open(RBRACKET);
        ok := empty;
        if inside {
          ok, items := ParseItems(start);
        }
        if ok {
          depth := depth - 1;
          offset := offset + 1;
        }
      }
    }

    /** What the loop of parse_array is still to read: behind a comma, or nothing at the bracket. */
    ghost function ItemsLeft(more: bool): Option<(seq<Json>, nat)>
      reads this`offset, this`depth
    {
      if !more then Some(([], offset + 1))
      else if offset >= |content| then None
      else JsonGrammar.ParseItems(content, offset + 1, depth)
    }

    /** Reading on will read behind the content. */
    ghost predicate ItemsAhead(more: bool)
      reads this`offset, this`depth
    {
      more && offset < |content| && ItemsOverrun(content, offset + 1, depth)
    }

    /** Behind an element: a comma, or the closing bracket. */
    method AfterItem() returns (ok: bool, more: bool)
      requires offset <= |content|
      modifies this`offset
      ensures !ok ==> ItemsAfter(content, old(offset), depth).None? && !ItemsOverrunAfter(content, old(offset), depth)
      ensures ok ==> old(offset) <= offset < |content| && ItemsLeft(more) == ItemsAfter(content, old(offset), depth)
      ensures ok ==> ItemsAhead(more) == ItemsOverrunAfter(content, old(offset), depth)
    {
      SkipWhitespace();
      more := offset < |content| && content[offset] == COMMA;
      ok := more || (offset < |content| && content[offset] == RBRACKET);
    }

    /** The loop of parse_array, from the byte before the first element to the closing bracket. */
    method ParseItems(ghost start: nat) returns (ok: bool, items: seq<Json>)
      requires start <= offset < |content|
      modifies this
      ensures outside == (old(outside) || ItemsOverrun(content, old(offset) + 1, old(depth)))
      ensures ok == JsonGrammar.ParseItems(content, old(offset) + 1, old(depth)).Some?
      ensures ok ==>
        JsonGrammar.ParseItems(content, old(offset) + 1, old(depth)) == Some((items, offset + 1)) && depth == old(depth)
      decreases |content| - start, 0, 2
    {
      ok, items := true, [];
      var more := true;
      ghost var all, over := ItemsLeft(true), outside || ItemsAhead(true);
      PrependNothing(all);
      while ok && more
        invariant ok ==> start <= offset < |content| && depth == old(depth)
        invariant ok ==> all == Prepend(items, ItemsLeft(more)) && (outside || ItemsAhead(more)) == over
        invariant !ok ==> all.None? && outside == over
        decreases ok, more, |content| - offset
      {
        var value;
        ok, value, more := ParseItem(start);
        PrependOne(items, value, ItemsLeft(more));
        items := items + [value];
      }
      PrependAll(items, offset + 1);
    }

    /** One turn of that loop; it goes on after a comma. */
    method ParseItem(ghost start: nat) returns (ok: bool, value: Json, more: bool)
      requires start <= offset < |content|
      modifies this
      ensures !ok ==> old(ItemsLeft(true)).None? && outside == old(outside || ItemsAhead(true))
      ensures ok ==> old(offset) < offset < |content| && depth == old(depth)
      ensures ok ==>
        old(ItemsLeft(true)) == Prepend([value], ItemsLeft(more))
        && (outside || ItemsAhead(more)) == old(outside || ItemsAhead(true))
      decreases |content| - start, 0, 1
    {
      offset, more := offset + 1, false;
      SkipWhitespace();
      ok, value := ParseValue();
      if ok {
        ItemsTurn(content, old(offset) + 1, depth, value, offset);
        ItemsOverrunTurn(content, old(offset) + 1, depth, value, offset);
        ok, more := AfterItem();
      }
    }

    /** parse_object. */
    method ParseObject() returns (ok: bool, members: seq<Member>)
      requires offset < |content| && content[offset] == LBRACE
      modifies this
      ensures outside == (old(outside) || ObjectOverruns(content, old(offset), old(depth)))
      ensures ok == JsonGrammar.ParseObject(content, old(offset), old(depth)).Some?
      ensures ok ==>
        JsonGrammar.ParseObject(content, old(offset), old(depth)) == Some((members, offset)) && depth == old(depth)
      decreases |content| - offset, 0
    {
      ok, members := false, [];
      if depth < NESTING_LIMIT {
        ghost var start := offset;
        var empty, inside := Open(RBRACE);
        ok := empty;
        if inside {
          ok, members := ParseMembers(start);
        }
        if ok {
          depth := depth - 1;
          offset := offset + 1;
        }
      }
    }

    ghost function MembersLeft(more: bool): Option<(seq<Member>, nat)>
      reads this`offset, this`depth
    {
      if !more then Some(([], offset + 1))
      else if offset >= |content| then None
      else JsonGrammar.ParseMembers(content, offset + 1, depth)
    }

    ghost predicate MembersAhead(more: bool)
      reads this`offset, this`depth
    {
      more && offset < |content| && MembersOverrun(content, offset + 1, depth)
    }

    method AfterMember() returns (ok: bool, more: bool)
      requires offset <= |content|
      modifies this`offset
      ensures !ok ==>
        MembersAfter(content, old(offset), depth).None? && !MembersOverrunAfter(content, old(offset), depth)
      ensures ok ==> old(offset) <= offset < |content| && MembersLeft(more) == MembersAfter(content, old(offset), depth)
      ensures ok ==> MembersAhead(more) == MembersOverrunAfter(content, old(offset), depth)
    {
      SkipWhitespace();
      more := offset < |content| && content[offset] == COMMA;
      ok := more || (offset < |content| && content[offset] == RBRACE);
    }

    /** The loop of parse_object. */
    method ParseMembers(ghost start: nat) returns (ok: bool, members: seq<Member>)
      requires start <= offset < |content|
      modifies this
      ensures outside == (old(outside) || MembersOverrun(content, old(offset) + 1, old(depth)))
      ensures ok == JsonGrammar.ParseMembers(content, old(offset) + 1, old(depth)).Some?
      ensures ok ==>
        JsonGrammar.ParseMembers(content, old(offset) + 1, old(depth)) == Some((members, offset + 1))
        && depth == old(depth)
      decreases |content| - start, 0, 2
    {
      ok, members := true, [];
      var more := true;
      ghost var all, over := MembersLeft(true), outside || MembersAhead(true);
      PrependNothing(all);
      while ok && more
        invariant ok ==> start <= offset < |content| && depth == old(depth)
        invariant ok ==> all == Prepend(members, MembersLeft(more)) && (outside || MembersAhead(more)) == over
        invariant !ok ==> all.None? && outside == over
        decreases ok, more, |content| - offset
      {
        var member;
        ok, member, more := ParseNextMember(start);
        PrependOne(members, member, MembersLeft(more));
        members := members + [member];
      }
      PrependAll(members, offset + 1);
    }

    /** One turn of that loop; it goes on after a comma. */
    method ParseNextMember(ghost start: nat) returns (ok: bool, member: Member, more: bool)
      requires start <= offset < |content|
      modifies this
      ensures !ok ==> old(MembersLeft(true)).None? && outside == old(outside || MembersAhead(true))
      ensures ok ==> old(offset) < offset < |content| && depth == old(depth)
      ensures ok ==>
        old(MembersLeft(true)) == Prepend([member], MembersLeft(more))
        && (outside || MembersAhead(more)) == old(outside || MembersAhead(true))
      decreases |content| - start, 0, 1
    {
      offset, more := offset + 1, false;
      ok, member := ParseMember(start);
      if ok {
        MembersTurn(content, old(offset) + 1, depth, member, offset);
        MembersOverrunTurn(content, old(offset) + 1, depth, member, offset);
        ok, more := AfterMember();
      }
    }

    /** A name, a colon and a value. */
    method ParseMember(ghost start: nat) returns (ok: bool, member: Member)
      requires start < offset <= |content|
      modifies this
      ensures outside == (old(outside) || MemberOverruns(content, old(offset), old(depth)))
      ensures ok == JsonGrammar.ParseMember(content, old(offset), old(depth)).Some?
      ensures ok ==>
        JsonGrammar.ParseMember(content, old(offset), old(depth)) == Some((member, offset)) && depth == old(depth)
      decreases |content| - start, 0, 0
    {
      member := Member([], Invalid);
      SkipWhitespace();
      var name;
      ok, name := ParseString();
      if ok {
        SkipWhitespace();
        ok := offset < |content| && content[offset] == COLON;
        if ok {
          offset := offset + 1;
          SkipWhitespace();
          var value;
          ok, value := ParseValue();
          member := Member(name, value);
        }
      }
    }
  }

  /** cJSON_ParseWithLengthOpts on a buffer with the byte `beyond` behind it; whether that byte was read. */
  method ParseWithLength(value: Bytes, requireTerminator: bool, beyond: Byte)
    returns (item: Option<Json>, outside: bool)
    ensures item == ParseDocument(value, requireTerminator)
    ensures outside == DocumentOverruns(value)
  {
    item, outside := None, false;
    if value != [] {
      var buffer := new ParseBuffer(value, beyond);
      if 4 < |value| && value[0] == 0xEF && value[1] == 0xBB && value[2] == 0xBF {
        buffer.offset := 3;
      }
      buffer.SkipWhitespace();
      var ok, tree := buffer.ParseValue();
      outside := buffer.outside;
      if ok {
        if requireTerminator {
          buffer.SkipWhitespace();
          ok := buffer.offset < |value| && value[buffer.offset] == 0;
        }
        if ok {
          item := Some(tree);
        }
      }
    }
  }

  lemma PrependAll<T>(done: seq<T>, end: nat)
    ensures Prepend(done, Some(([], end))) == Some((done, end))
  {
    AppendNothing(done);
  }

  lemma PrependNothing<T>(r: Option<(seq<T>, nat)>)
    ensures Prepend([], r) == r
  {
    if r.Some? { assert [] + r.value.0 == r.value.0; }
  }
}
