// The text cJSON prints for a tree: print_value and the functions below it, as byte strings.
module JsonText {
  import opened Sequences
  import opened CText
  import opened JsonTree
  import opened Octets
  import opened DecimalText
  import opened Unicode

  const QUOTE: Byte := 34
  const BACKSLASH: Byte := 92
  const COMMA: Byte := 44
  const COLON: Byte := 58
  const SPACE: Byte := 32
  const TAB: Byte := 9
  const NEWLINE: Byte := 10
  const LBRACKET: Byte := 91
  const RBRACKET: Byte := 93
  const LBRACE: Byte := 123
  const RBRACE: Byte := 125
  const HYPHEN: Byte := 45

  const NULL_TEXT: Bytes := [110, 117, 108, 108]
  const TRUE_TEXT: Bytes := [116, 114, 117, 101]
  const FALSE_TEXT: Bytes := [102, 97, 108, 115, 101]

  function ToBytes(s: CString): (r: Bytes)
    ensures |r| == |s|
    ensures forall i {:trigger r[i]} :: 0 <= i < |s| ==> r[i] == s[i] as int as Byte
  {
    if s == [] then [] else [s[0] as int as Byte] + ToBytes(s[1..])
  }

  predicate ZeroFree(b: Bytes) {
    forall i :: 0 <= i < |b| ==> b[i] != 0
  }

  // ----- strings -----

  /** The letter of a one-character escape, 0 if the byte has none. */
  function EscapeLetter(c: CChar): Byte {
    if c == 34 then 34
    else if c == 92 then 92
    else if c == 8 then 98
    else if c == 12 then 102
    else if c == 10 then 110
    else if c == 13 then 114
    else if c == 9 then 116
    else 0
  }

  /** One byte of a string as print_string_ptr writes it. */
  function PrintChar(c: CChar): (r: Bytes)
    ensures ZeroFree(r) && r != []
  {
    if EscapeLetter(c) != 0 then [BACKSLASH, EscapeLetter(c)]
    else if c < 32 then [BACKSLASH, 117, 48, 48, HexDigit(c as int / 16), HexDigit(c as int % 16)]
    else [c as int as Byte]
  }

  function PrintChars(s: CString): (r: Bytes)
    ensures ZeroFree(r)
  {
    if s == [] then [] else PrintChar(s[0]) + PrintChars(s[1..])
  }

  function PrintString(s: CString): (r: Bytes)
    ensures ZeroFree(r)
  {
    [QUOTE] + PrintChars(s) + [QUOTE]
  }

  lemma {:induction false} PrintCharsAppend(a: CString, b: CString)
    ensures PrintChars(a + b) == PrintChars(a) + PrintChars(b)
  {
    if a == [] {
      assert a + b == b;
    } else {
      PrintCharsAppend(a[1..], b);
      assert (a + b)[1..] == a[1..] + b;
      Regroup(PrintChar(a[0]), PrintChars(a[1..]), PrintChars(b));
    }
  }

  // ----- numbers -----

  /** `%d`. */
  function PrintNumber(n: Int32): (r: Bytes)
    ensures ZeroFree(r) && r != []
  {
    var m: int := n;
    if m < 0 then [HYPHEN] + Digits(-m) else Digits(m)
  }

  // ----- values -----

  function Repeat(b: Byte, n: nat): (r: Bytes)
    ensures |r| == n && forall i {:trigger r[i]} :: 0 <= i < n ==> r[i] == b
  {
    seq(n, _ => b)
  }

  /** print_value gives up on an Invalid node. */
  predicate Printable(t: Json) {
    match t
    case Invalid => false
    case Array(items) => forall x | x in items :: Printable(x)
    case Object(members) => forall m | m in members :: Printable(m.value)
    case _ => true
  }

  /** The text of a printable tree. */
  function Print(t: Json, format: bool, depth: nat): (r: Bytes)
    ensures ZeroFree(r)
    decreases t, 1, 0
  {
    match t
    case Invalid => []
    case Null => NULL_TEXT
    case False => FALSE_TEXT
    case True => TRUE_TEXT
    case Number(n) => PrintNumber(n)
    case Text(s) => PrintString(s)
    case Raw(s) => ToBytes(s)
    case Array(items) => [LBRACKET] + PrintItems(t, items, format, depth + 1) + [RBRACKET]
    case Object(members) =>
      OpenObject(format) + PrintMembers(t, members, format, depth + 1) + (if format then Repeat(TAB, depth) else [])
          + [RBRACE]
  }

  function OpenObject(format: bool): Bytes {
    if format then [LBRACE, NEWLINE] else [LBRACE]
  }

  function Separator(format: bool): Bytes {
    if format then [COMMA, SPACE] else [COMMA]
  }

  function AfterName(format: bool): Bytes {
    if format then [COLON, TAB] else [COLON]
  }

  /** What follows a member: a comma unless it is the last, and a line break when formatted. */
  function AfterMember(format: bool, last: bool): Bytes {
    (if last then [] else [COMMA]) + (if format then [NEWLINE] else [])
  }

  function PrintItems(ghost whole: Json, items: seq<Json>, format: bool, depth: nat): (r: Bytes)
    requires forall i :: 0 <= i < |items| ==> items[i] < whole
    ensures ZeroFree(r)
    decreases whole, 0, |items|
  {
    if items == [] then []
    else
      Print(items[0], format, depth) + (if |items| > 1 then Separator(format) else [])
      + PrintItems(whole, items[1..], format, depth)
  }

  function PrintMembers(ghost whole: Json, members: seq<Member>, format: bool, depth: nat): (r: Bytes)
    requires forall i :: 0 <= i < |members| ==> members[i].value < whole
    ensures ZeroFree(r)
    decreases whole, 0, |members|
  {
    if members == [] then []
    else PrintMember(members[0], format, depth, |members| == 1) + PrintMembers(whole, members[1..], format, depth)
  }

  function PrintMember(m: Member, format: bool, depth: nat, last: bool): (r: Bytes)
    ensures ZeroFree(r)
    decreases m.value, 2, 0
  {
    NamePart(m.name, format, depth) + Print(m.value, format, depth) + AfterMember(format, last)
  }

  function NamePart(name: CString, format: bool, depth: nat): (r: Bytes)
    ensures ZeroFree(r)
  {
    (if format then Repeat(TAB, depth) else []) + PrintString(name) + AfterName(format)
  }

  // ----- the bytes of the syntax -----

  function Chars(s: string): Bytes
    requires forall i :: 0 <= i < |s| ==> s[i] as int < 128
  {
    seq(|s|, (i: nat) requires i < |s| => s[i] as int as Byte)
  }

  /** The words and the punctuation of RFC 8259. */
  lemma SyntaxBytes()
    ensures NULL_TEXT == Chars("null") && TRUE_TEXT == Chars("true") && FALSE_TEXT == Chars("false")
    ensures [LBRACKET, RBRACKET, LBRACE, RBRACE, COLON, COMMA, QUOTE, BACKSLASH, HYPHEN] == Chars("[]{}:,\"\\-")
    ensures [TAB, NEWLINE, SPACE] == Chars("\t\n ")
  {
  }

  // ----- raw nodes -----

  /** The two trees differ only where the first has a raw node: its text is the printed text of the second there. */
  ghost predicate SpelledOut(t: Json, u: Json, format: bool, depth: nat)
    decreases t
  {
    if t.Raw? then ToBytes(t.raw) == Print(u, format, depth)
    else if t.Array? && u.Array? then
      |t.items| == |u.items| && forall i :: 0 <= i < |t.items| ==> SpelledOut(t.items[i], u.items[i], format, depth + 1)
    else if t.Object? && u.Object? then
      |t.members| == |u.members|
      && forall i :: 0 <= i < |t.members| ==>
           t.members[i].name == u.members[i].name
           && SpelledOut(t.members[i].value, u.members[i].value, format, depth + 1)
    else t == u
  }

  /** A raw text is printed as it is, so a tree with raw parts prints as the tree they spell out. */
  lemma {:induction false} RawVerbatim(t: Json, u: Json, format: bool, depth: nat)
    requires SpelledOut(t, u, format, depth)
    ensures Print(t, format, depth) == Print(u, format, depth)
    decreases t, 1, 0
  {
    if t.Array? && u.Array? {
      RawItems(t, u, t.items, u.items, format, depth + 1);
    } else if t.Object? && u.Object? {
      RawMembers(t, u, t.members, u.members, format, depth + 1);
    }
  }

  lemma {:induction false} RawItems(t: Json, u: Json, s: seq<Json>, v: seq<Json>, format: bool, depth: nat)
    requires |s| == |v| && forall i :: 0 <= i < |s| ==> s[i] < t && v[i] < u && SpelledOut(s[i], v[i], format, depth)
    ensures PrintItems(t, s, format, depth) == PrintItems(u, v, format, depth)
    decreases t, 0, |s|
  {
    if s != [] {
      RawVerbatim(s[0], v[0], format, depth);
      RawItems(t, u, s[1..], v[1..], format, depth);
    }
  }

  lemma {:induction false} RawMembers(t: Json, u: Json, s: seq<Member>, v: seq<Member>, format: bool, depth: nat)
    requires |s| == |v|
    requires forall i :: 0 <= i < |s| ==>
      s[i].value < t && v[i].value < u && s[i].name == v[i].name && SpelledOut(s[i].value, v[i].value, format, depth)
    ensures PrintMembers(t, s, format, depth) == PrintMembers(u, v, format, depth)
    decreases t, 0, |s|
  {
    if s != [] {
      RawVerbatim(s[0].value, v[0].value, format, depth);
      RawMembers(t, u, s[1..], v[1..], format, depth);
    }
  }
}
