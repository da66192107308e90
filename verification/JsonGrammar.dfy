// What cJSON's parser accepts: the functions of the parse buffer as functions of content and offset.
module JsonGrammar {
  import opened Wrappers
  import opened Sequences
  import opened CText
  import opened JsonTree
  import opened Octets
  import opened Unicode
  import opened JsonText
  import opened Strtod

  const NESTING_LIMIT: nat := 1000

  function ByteAt(c: Bytes, i: nat): Byte {
    if i < |c| then c[i] else 0
  }

  // ----- white space -----

  function SkipFrom(c: Bytes, o: nat): (r: nat)
    ensures o <= r && (o <= |c| ==> r <= |c|)
    ensures r < |c| ==> c[r] > 32
    decreases |c| - o
  {
    if o < |c| && c[o] <= 32 then SkipFrom(c, o + 1) else o
  }

  /** buffer_skip_whitespace: at the end of the buffer it steps back onto the last byte. */
  function Skip(c: Bytes, o: nat): (r: nat)
    ensures o <= r && (o < |c| ==> r < |c|) && (o >= |c| ==> r == o)
  {
    if o >= |c| then o
    else var e := SkipFrom(c, o); if e == |c| then e - 1 else e
  }

  // ----- strings -----

  /** The first scan of parse_string: the quote that ends the literal. */
  function CloseQuote(c: Bytes, i: nat): (r: Option<nat>)
    ensures r.Some? ==> i <= r.value < |c| && c[r.value] == QUOTE
    decreases |c| - i
  {
    if i >= |c| then None
    else if c[i] == QUOTE then Some(i)
    else if c[i] == BACKSLASH then (if i + 1 >= |c| then None else CloseQuote(c, i + 2))
    else CloseQuote(c, i + 1)
  }

  /** How many backslash pairs that scan passes over. */
  function SkippedBytes(c: Bytes, i: nat): nat
    decreases |c| - i
  {
    if i >= |c| || c[i] == QUOTE then 0
    else if c[i] == BACKSLASH then (if i + 1 >= |c| then 0 else 1 + SkippedBytes(c, i + 2))
    else SkippedBytes(c, i + 1)
  }

  /** parse_hex4: four digits, or 0 as soon as one of them is no digit. */
  function Hex4(c: Bytes, p: nat): (r: nat)
    requires p + 4 <= |c|
    ensures r <= 0xFFFF
  {
    var a, b, d, e := HexValue(c[p]), HexValue(c[p + 1]), HexValue(c[p + 2]), HexValue(c[p + 3]);
    if a.None? || b.None? || d.None? || e.None? then 0
    else ((a.value * 16 + b.value) * 16 + d.value) * 16 + e.value
  }

  /** The first half of utf16_literal_to_utf8: the length of the escape and its code point. */
  function Codepoint(c: Bytes, p: nat, e: nat): (r: Option<(nat, nat)>)
    requires p <= e < |c|
    ensures r.Some? ==> p + r.value.0 <= e
    ensures r.Some? ==> (r.value.0 == 6 && r.value.1 <= 0xFFFF) || (r.value.0 == 12 && r.value.1 <= 0x10FFFF)
  {
    if e - p < 6 then None
    else
      var first := Hex4(c, p + 2);
      if 0xDC00 <= first <= 0xDFFF then None
      else if 0xD800 <= first <= 0xDBFF then
        if e - p < 12 || c[p + 6] != BACKSLASH || c[p + 7] != 117 then None
        else
          var second := Hex4(c, p + 8);
          if second < 0xDC00 || second > 0xDFFF then None
          else Some((12, 0x10000 + (first % 0x400) * 0x400 + second % 0x400))
      else Some((6, first))
  }

  /** utf16_literal_to_utf8: the length of the escape and its bytes. */
  function Utf16Literal(c: Bytes, p: nat, e: nat): (r: Option<(nat, Bytes)>)
    requires p <= e < |c|
    ensures r.Some? ==> (r.value.0 == 6 || r.value.0 == 12) && p + r.value.0 <= e
    ensures r.Some? ==> 2 * |r.value.1| <= r.value.0
  {
    var u := Codepoint(c, p, e);
    if u.None? then None else Some((u.value.0, Utf8(u.value.1)))
  }

  /** The byte a one-letter escape stands for. */
  function EscapedByte(letter: Byte): Option<Byte> {
    if letter == 98 then Some(8)
    else if letter == 102 then Some(12)
    else if letter == 110 then Some(10)
    else if letter == 114 then Some(13)
    else if letter == 116 then Some(9)
    else if letter == QUOTE || letter == BACKSLASH || letter == 47 then Some(letter)
    else None
  }

  /** The second scan of parse_string, from `p` to the closing quote at `e`. */
  function Unescape(c: Bytes, p: nat, e: nat): Option<Bytes>
    requires e < |c|
    decreases if p < e then e - p else 0
  {
    if p >= e then Some([])
    else if c[p] != BACKSLASH then PutBefore([c[p]], Unescape(c, p + 1, e))
    else if c[p + 1] == 117 then
      var u := Utf16Literal(c, p, e);
      if u.None? then None else PutBefore(u.value.1, Unescape(c, p + u.value.0, e))
    else
      var b := EscapedByte(c[p + 1]);
      if b.None? then None else PutBefore([b.value], Unescape(c, p + 2, e))
  }

  /** The C string in a zero-terminated buffer: what comes before the first zero. */
  function CutAtZero(b: Bytes): CString {
    if b == [] || b[0] == 0 then [] else [b[0] as int as CChar] + CutAtZero(b[1..])
  }

  function ParseString(c: Bytes, o: nat): (r: Option<(CString, nat)>)
    ensures r.Some? ==> o < r.value.1 <= |c|
  {
    if ByteAt(c, o) != QUOTE then None
    else
      var e := CloseQuote(c, o + 1);
      if e.None? then None
      else
        var s := Unescape(c, o + 1, e.value);
        if s.None? then None else Some((CutAtZero(s.value), e.value + 1))
  }

  // ----- numbers -----

  /** parse_number copies at most 63 bytes. */
  const NUMBER_BUFFER: nat := 63

  function NumberLimit(c: Bytes, o: nat): nat {
    if o + NUMBER_BUFFER < |c| then o + NUMBER_BUFFER else |c|
  }

  /** The bytes parse_number copies: those a number is made of. */
  predicate NumberByte(b: Byte) {
    IsDigit(b) || IsSign(b) || IsExponent(b) || b == POINT
  }

  function CopyEnd(c: Bytes, i: nat, limit: nat): (r: nat)
    requires i <= limit <= |c|
    ensures i <= r <= limit
    decreases limit - i
  {
    if i < limit && NumberByte(c[i]) then CopyEnd(c, i + 1, limit) else i
  }

  /** What strtod is given. */
  function NumberText(c: Bytes, o: nat): Bytes
    requires o <= |c|
  {
    Part(c, o, CopyEnd(c, o, NumberLimit(c, o)) - o)
  }

  /** The two tests that saturate `valueint`. */
  function Saturate(n: int): Int32 {
    if n >= 0x7FFF_FFFF then 0x7FFF_FFFF else if n <= -0x8000_0000 then -0x8000_0000 else n
  }

  /** The number node for a copied text and how many bytes of it strtod takes. */
  function NumberOf(t: Bytes): (r: Option<(Json, nat)>)
    ensures r.Some? ==> 0 < r.value.1 <= |t|
  {
    if NumberEnd(t) == 0 then None else Some((Number(Saturate(WholePart(t))), NumberEnd(t)))
  }

  /** parse_number: the number is as long as strtod says, and `valueint` is its value cut off and saturated. */
  function ParseNumber(c: Bytes, o: nat): (r: Option<(Json, nat)>)
    requires o < |c|
    ensures r.Some? ==> o < r.value.1 <= |c|
  {
    var number := NumberOf(NumberText(c, o));
    if number.None? then None else Some((number.value.0, o + number.value.1))
  }

  // ----- values -----

  function ParseValue(c: Bytes, o: nat, depth: nat): (r: Option<(Json, nat)>)
    requires o <= |c|
    ensures r.Some? ==> o < r.value.1 <= |c|
    decreases |c| - o, 1
  {
    if TextAt(c, o, NULL_TEXT) then Some((Null, o + 4))
    else if TextAt(c, o, FALSE_TEXT) then Some((False, o + 5))
    else if TextAt(c, o, TRUE_TEXT) then Some((True, o + 4))
    else if o >= |c| then None
    else if c[o] == QUOTE then
      var s := ParseString(c, o);
      if s.None? then None else Some((Text(s.value.0), s.value.1))
    else if c[o] == HYPHEN || 48 <= c[o] <= 57 then ParseNumber(c, o)
    else if c[o] == LBRACKET then
      var items := ParseArray(c, o, depth);
      if items.None? then None else Some((Array(items.value.0), items.value.1))
    else if c[o] == LBRACE then
      var members := ParseObject(c, o, depth);
      if members.None? then None else Some((Object(members.value.0), members.value.1))
    else None
  }

  /** parse_array from its bracket on. */
  function ParseArray(c: Bytes, o: nat, depth: nat): (r: Option<(seq<Json>, nat)>)
    requires o < |c| && c[o] == LBRACKET
    ensures r.Some? ==> o < r.value.1 <= |c|
    decreases |c| - o, 0
  {
    if depth >= NESTING_LIMIT then None
    else
      var first := Skip(c, o + 1);
      if first >= |c| then None
      else if c[first] == RBRACKET then Some(([], first + 1))
      else ParseItems(c, first, depth + 1)
  }

  /** The loop over the elements, each after white space, up to the closing bracket. */
  function ParseItems(c: Bytes, o: nat, depth: nat): (r: Option<(seq<Json>, nat)>)
    requires o <= |c|
    ensures r.Some? ==> o < r.value.1 <= |c|
    decreases |c| - o, 2
  {
    var v := ParseValue(c, Skip(c, o), depth);
    if v.None? then None
    else
      var after := Skip(c, v.value.1);
      if after < |c| && c[after] == COMMA then
        var rest := ParseItems(c, after + 1, depth);
        if rest.None? then None else Some(([v.value.0] + rest.value.0, rest.value.1))
      else if after < |c| && c[after] == RBRACKET then Some(([v.value.0], after + 1))
      else None
  }

  function ParseObject(c: Bytes, o: nat, depth: nat): (r: Option<(seq<Member>, nat)>)
    requires o < |c| && c[o] == LBRACE
    ensures r.Some? ==> o < r.value.1 <= |c|
    decreases |c| - o, 0
  {
    if depth >= NESTING_LIMIT then None
    else
      var first := Skip(c, o + 1);
      if first >= |c| then None
      else if c[first] == RBRACE then Some(([], first + 1))
      else ParseMembers(c, first, depth + 1)
  }

  /** One member: a name, a colon and a value, with white space around each. */
  function ParseMember(c: Bytes, o: nat, depth: nat): (r: Option<(Member, nat)>)
    requires o <= |c|
    ensures r.Some? ==> o < r.value.1 <= |c|
    decreases |c| - o, 2
  {
    var name := ParseString(c, Skip(c, o));
    if name.None? then None
    else
      var colon := Skip(c, name.value.1);
      if colon >= |c| || c[colon] != COLON then None
      else
        var v := ParseValue(c, Skip(c, colon + 1), depth);
        if v.None? then None else Some((Member(name.value.0, v.value.0), v.value.1))
  }

  function ParseMembers(c: Bytes, o: nat, depth: nat): (r: Option<(seq<Member>, nat)>)
    requires o <= |c|
    ensures r.Some? ==> o < r.value.1 <= |c|
    decreases |c| - o, 3
  {
    var m := ParseMember(c, o, depth);
    if m.None? then None
    else
      var after := Skip(c, m.value.1);
      if after < |c| && c[after] == COMMA then
        var rest := ParseMembers(c, after + 1, depth);
        if rest.None? then None else Some(([m.value.0] + rest.value.0, rest.value.1))
      else if after < |c| && c[after] == RBRACE then Some(([m.value.0], after + 1))
      else None
  }

  // ----- reading behind the buffer -----

  /*
   * parse_string tests the byte at the offset without asking whether there is one. Parsing from `o` on it does
   * so at the end of the content only for a member behind a comma that is the last byte.
   */

  predicate ValueOverruns(c: Bytes, o: nat, depth: nat)
    requires o <= |c|
    decreases |c| - o, 1
  {
    o < |c| && ((c[o] == LBRACKET && ArrayOverruns(c, o, depth)) || (c[o] == LBRACE && ObjectOverruns(c, o, depth)))
  }

  predicate ArrayOverruns(c: Bytes, o: nat, depth: nat)
    requires o < |c|
    decreases |c| - o, 0
  {
    depth < NESTING_LIMIT
    && var first := Skip(c, o + 1); first < |c| && c[first] != RBRACKET && ItemsOverrun(c, first, depth + 1)
  }

  predicate ItemsOverrun(c: Bytes, o: nat, depth: nat)
    requires o <= |c|
    decreases |c| - o, 2
  {
    ValueOverruns(c, Skip(c, o), depth)
    || var v := ParseValue(c, Skip(c, o), depth);
       v.Some? && var after := Skip(c, v.value.1); after < |c| && c[after] == COMMA && ItemsOverrun(c, after + 1, depth)
  }

  predicate ObjectOverruns(c: Bytes, o: nat, depth: nat)
    requires o < |c|
    decreases |c| - o, 0
  {
    depth < NESTING_LIMIT
    && var first := Skip(c, o + 1); first < |c| && c[first] != RBRACE && MembersOverrun(c, first, depth + 1)
  }

  predicate MemberOverruns(c: Bytes, o: nat, depth: nat)
    requires o <= |c|
    decreases |c| - o, 2
  {
    o == |c|
    || var name := ParseString(c, Skip(c, o));
       name.Some? && var colon := Skip(c, name.value.1);
         colon < |c| && c[colon] == COLON && ValueOverruns(c, Skip(c, colon + 1), depth)
  }

  predicate MembersOverrun(c: Bytes, o: nat, depth: nat)
    requires o <= |c|
    decreases |c| - o, 3
  {
    MemberOverruns(c, o, depth)
    || var m := ParseMember(c, o, depth);
       m.Some? && var after := Skip(c, m.value.1);
         after < |c| && c[after] == COMMA && MembersOverrun(c, after + 1, depth)
  }

  /** Parsing the text reads the byte behind it. */
  predicate DocumentOverruns(c: Bytes) {
    c != [] && ValueOverruns(c, Skip(c, DocumentStart(c)), 0)
  }

  /** A byte order mark is passed over. */
  function DocumentStart(c: Bytes): nat {
    if 4 < |c| && c[0] == 0xEF && c[1] == 0xBB && c[2] == 0xBF then 3 else 0
  }

  lemma {:induction false} ValueNeedsComma(c: Bytes, o: nat, depth: nat)
    requires o <= |c| && ValueOverruns(c, o, depth)
    ensures c[|c| - 1] == COMMA
    decreases |c| - o, 1
  {
    var first := Skip(c, o + 1);
    if c[o] == LBRACKET {
      ItemsNeedComma(c, first, depth + 1);
    } else {
      MembersNeedComma(c, first, depth + 1);
    }
  }

  lemma {:induction false} ItemsNeedComma(c: Bytes, o: nat, depth: nat)
    requires o <= |c| && ItemsOverrun(c, o, depth)
    ensures c != [] && c[|c| - 1] == COMMA
    decreases |c| - o, 2
  {
    if ValueOverruns(c, Skip(c, o), depth) {
      ValueNeedsComma(c, Skip(c, o), depth);
    } else {
      ItemsNeedComma(c, Skip(c, ParseValue(c, Skip(c, o), depth).value.1) + 1, depth);
    }
  }

  lemma {:induction false} MembersNeedComma(c: Bytes, o: nat, depth: nat)
    requires o <= |c| && MembersOverrun(c, o, depth) && (o == |c| ==> c != [] && c[|c| - 1] == COMMA)
    ensures c != [] && c[|c| - 1] == COMMA
    decreases |c| - o, 2
  {
    if o < |c| {
      if MemberOverruns(c, o, depth) {
        var name := ParseString(c, Skip(c, o));
        ValueNeedsComma(c, Skip(c, Skip(c, name.value.1) + 1), depth);
      } else {
        MembersNeedComma(c, Skip(c, ParseMember(c, o, depth).value.1) + 1, depth);
      }
    }
  }

  /** The text {"a":1.5, is read beyond its end. */
  lemma OpenObjectOverruns()
    ensures DocumentOverruns([LBRACE, QUOTE, 97, QUOTE, COLON, 49, POINT, 53, COMMA])
  {
    var c := [LBRACE, QUOTE, 97, QUOTE, COLON, 49, POINT, 53, COMMA];
    assert Skip(c, 0) == 0 && Skip(c, 1) == 1 && Skip(c, 4) == 4 && Skip(c, 5) == 5 && Skip(c, 8) == 8;
    assert CloseQuote(c, 3) == Some(3) && CloseQuote(c, 2) == Some(3);
    assert Unescape(c, 3, 3) == Some([]) && Unescape(c, 2, 3) == PutBefore([97], Some([]));
    assert ParseString(c, 1).Some? && ParseString(c, 1).value.1 == 4;
    NumberBeforeComma(c, 5, 8);
    assert ParseMember(c, 1, 1).Some? && ParseMember(c, 1, 1).value.1 == 8;
    assert MembersOverrun(c, 9, 1);
    assert MembersOverrun(c, 1, 1);
  }

  /** A digit, a point and a digit before a comma. */
  lemma NumberBeforeComma(c: Bytes, o: nat, e: nat)
    requires e == o + 3 < |c| && IsDigit(c[o]) && c[o + 1] == POINT && IsDigit(c[o + 2]) && c[e] == COMMA
    ensures ParseValue(c, o, 1).Some? && ParseValue(c, o, 1).value.1 == e
  {
    var limit := NumberLimit(c, o);
    assert CopyEnd(c, e, limit) == e && CopyEnd(c, e - 1, limit) == e && CopyEnd(c, e - 2, limit) == e
        && CopyEnd(c, o, limit) == e;
    var t := NumberText(c, o);
    assert t[0] == c[o] && t[1] == POINT && t[2] == c[o + 2];
    assert SignEnd(t, 0) == 0 && DigitsEnd(t, 1) == 1 && DigitsEnd(t, 3) == 3;
    assert IntegerEnd(t) == 1 && FractionEnd(t) == 3 && NumberEnd(t) == 3;
    LiteralFirst(c, o);
  }

  /** The first byte of a literal. */
  lemma LiteralFirst(c: Bytes, o: nat)
    ensures TextAt(c, o, NULL_TEXT) ==> c[o] == 110
    ensures TextAt(c, o, FALSE_TEXT) ==> c[o] == 102
    ensures TextAt(c, o, TRUE_TEXT) ==> c[o] == 116
  {
    if TextAt(c, o, NULL_TEXT) { assert c[o + 0] == NULL_TEXT[0]; }
    if TextAt(c, o, FALSE_TEXT) { assert c[o + 0] == FALSE_TEXT[0]; }
    if TextAt(c, o, TRUE_TEXT) { assert c[o + 0] == TRUE_TEXT[0]; }
  }

  /** Only a text whose last byte is a comma is read beyond its end; a zero-terminated one never is. */
  lemma OverrunNeedsComma(c: Bytes)
    requires DocumentOverruns(c)
    ensures c[|c| - 1] == COMMA
  {
    ValueNeedsComma(c, Skip(c, DocumentStart(c)), 0);
  }

  /** cJSON_ParseWithLengthOpts. */
  function ParseDocument(c: Bytes, requireTerminator: bool): Option<Json> {
    if c == [] then None
    else
      var v := ParseValue(c, Skip(c, DocumentStart(c)), 0);
      if v.None? then None
      else if requireTerminator && ByteAt(c, Skip(c, v.value.1)) != 0 then None
      else if requireTerminator && Skip(c, v.value.1) >= |c| then None
      else Some(v.value.0)
  }
}
