// The parser undoes the printer: a printed text is one of the texts of its tree.
module JsonRoundTrip {
  import opened Wrappers
  import opened Sequences
  import opened CText
  import opened JsonTree
  import opened Octets
  import opened DecimalText
  import opened Unicode
  import opened JsonText
  import opened Strtod
  import opened JsonGrammar
  import opened JsonEscapes
  import opened JsonSyntax

  // ----- strings -----

  /** How print_string_ptr spells a byte. */
  function PieceOf(c: CChar): Piece {
    if EscapeLetter(c) != 0 then Letter(LetterOf(c))
    else if c < 32 then Unit([48, 48] + TwoDigits(c as int))
    else Piece.Plain(c as int as Byte)
  }

  function LetterOf(c: CChar): nat {
    if c == 34 then 0 else if c == 92 then 1 else if c == 8 then 3 else if c == 12 then 4
    else if c == 10 then 5 else if c == 13 then 6 else 7
  }

  lemma {:induction false} ControlSpelled(n: nat)
    requires n < 32
    ensures var d := [48, 48] + TwoDigits(n); Spelled(d) == n && FourDigits(d)
  {
    var d := [48, 48] + TwoDigits(n);
    TwoBack(n);
    assert d[0] == 48 && d[1] == 48 && d[2] == TwoDigits(n)[0] && d[3] == TwoDigits(n)[1];
    assert d == [d[0], d[1], d[2], d[3]];
  }

  lemma {:induction false} PieceSpells(c: CChar)
    ensures var x := PieceOf(c);
      WellFormed(x) && Written(x) == PrintChar(c) && JsonEscapes.Meaning(x) == [c as int as Byte]
  {
    if EscapeLetter(c) == 0 && c < 32 {
      ControlSpelled(c as int);
      assert [BACKSLASH, 117] + ([48, 48] + TwoDigits(c as int)) == PrintChar(c);
    }
  }

  function PiecesOf(s: CString): seq<Piece> {
    if s == [] then [] else [PieceOf(s[0])] + PiecesOf(s[1..])
  }

  lemma {:induction false} PiecesSpell(s: CString)
    ensures var xs := PiecesOf(s);
      AllWellFormed(xs) && WrittenAll(xs) == PrintChars(s) && MeaningAll(xs) == ToBytes(s)
  {
    if s != [] {
      PieceSpells(s[0]);
      PiecesSpell(s[1..]);
      assert PiecesOf(s)[1..] == PiecesOf(s[1..]);
    }
  }

  lemma {:induction false} CutWhole(s: CString)
    ensures CutAtZero(ToBytes(s)) == s
  {
    if s != [] {
      CutWhole(s[1..]);
      assert ToBytes(s)[1..] == ToBytes(s[1..]);
    }
  }

  /** The literal of print_string_ptr. */
  function LiteralOf(s: CString): Literal {
    Literal(PiecesOf(s), [])
  }

  lemma {:induction false} LiteralSpells(s: CString)
    ensures var l := LiteralOf(s); IsLiteral(l) && LiteralText(l) == PrintString(s) && StringOf(l) == s
  {
    PiecesSpell(s);
    CutWhole(s);
    Regroup([QUOTE], PrintChars(s), [QUOTE]);
    assert [] + [QUOTE] == [QUOTE];
  }

  /** parse_string undoes print_string_ptr, byte for byte. */
  lemma {:induction false} StringRoundTrip(c: Bytes, o: nat, s: CString)
    requires TextAt(c, o, PrintString(s))
    ensures ParseString(c, o) == Some((s, o + |PrintString(s)|))
  {
    LiteralSpells(s);
    LiteralRead(c, o, LiteralOf(s));
  }

  // ----- no literal is shorter -----

  /** How many bytes the printer takes for a byte of a string. */
  function Cost(b: Byte): nat {
    if b == 0 then 0 else |PrintChar(b as int as CChar)|
  }

  function CostOf(bs: Bytes): nat {
    if bs == [] then 0 else Cost(bs[0]) + CostOf(bs[1..])
  }

  lemma {:induction false} CostAppend(a: Bytes, b: Bytes)
    ensures CostOf(a + b) == CostOf(a) + CostOf(b)
    decreases |a|
  {
    if a == [] {
      assert a + b == b;
    } else {
      assert (a + b)[1..] == a[1..] + b;
      CostAppend(a[1..], b);
    }
  }

  lemma {:induction false} CostPrinted(s: CString)
    ensures CostOf(ToBytes(s)) == |PrintChars(s)|
  {
    if s != [] {
      CostPrinted(s[1..]);
      assert ToBytes(s)[1..] == ToBytes(s[1..]);
    }
  }

  /** RFC 8259 asks for control characters to be escaped. */
  predicate Strict(xs: seq<Piece>) {
    forall i :: 0 <= i < |xs| && xs[i].Plain? ==> xs[i].b >= 32
  }

  lemma {:induction false} CostFew(bs: Bytes)
    requires |bs| <= 4 && forall i :: 0 <= i < |bs| ==> bs[i] >= 128
    ensures CostOf(bs) == |bs|
    decreases |bs|
  {
    if bs != [] { CostFew(bs[1..]); }
  }

  lemma {:induction false} CostOne(m: Bytes)
    requires |m| == 1
    ensures CostOf(m) == Cost(m[0])
  {
    assert m[1..] == [];
  }

  lemma {:induction false} Utf8Cost(cp: nat)
    requires cp <= 0x10FFFF
    ensures CostOf(Utf8(cp)) <= if cp < 0x80 then 6 else 4
  {
    var bs := Utf8(cp);
    if cp < 0x80 {
      CostOne(bs);
    } else {
      CostFew(bs);
    }
  }

  lemma {:induction false} PieceCost(x: Piece)
    requires WellFormed(x) && (x.Plain? ==> x.b >= 32)
    ensures CostOf(JsonEscapes.Meaning(x)) <= |Written(x)|
  {
    var m := JsonEscapes.Meaning(x);
    match x
    case Plain(b) => CostOne(m);
    case Letter(i) => CostOne(m);
    case Unit(d) => Utf8Cost(Spelled(d));
    case Pair(h, l) => Utf8Cost(Combined(Spelled(h), Spelled(l)));
  }

  lemma {:induction false} PiecesCost(xs: seq<Piece>)
    requires AllWellFormed(xs) && Strict(xs)
    ensures CostOf(MeaningAll(xs)) <= |WrittenAll(xs)|
    decreases |xs|
  {
    if xs != [] {
      PieceCost(xs[0]);
      PiecesCost(xs[1..]);
      CostAppend(JsonEscapes.Meaning(xs[0]), MeaningAll(xs[1..]));
    }
  }

  /** The printed literal of a string is the shortest of all that JSON allows for it. */
  lemma {:induction false} ShortestLiteral(s: CString, xs: seq<Piece>)
    requires AllWellFormed(xs) && Strict(xs) && MeaningAll(xs) == ToBytes(s)
    ensures |PrintString(s)| <= |LiteralText(Literal(xs, []))| && Strict(PiecesOf(s))
  {
    PiecesCost(xs);
    CostPrinted(s);
    PiecesStrict(s);
  }

  lemma {:induction false} PiecesStrict(s: CString)
    ensures Strict(PiecesOf(s))
  {
    if s != [] {
      PiecesStrict(s[1..]);
      assert PiecesOf(s)[1..] == PiecesOf(s[1..]);
    }
  }

  // ----- numbers -----

  lemma {:induction false} PrintedSign(n: Int32)
    ensures var m: int := n; var t := PrintNumber(n); var d := Digits(if m < 0 then -m else m);
      var s := if m < 0 then 1 else 0;
      && |t| == s + |d| && (t[0] == HYPHEN <==> s == 1) && AllDigits(t, s, |t|) && Part(t, s, |d|) == d
  {
    var m: int := n;
    var d := Digits(if m < 0 then -m else m);
    var t, s := PrintNumber(n), if m < 0 then 1 else 0;
    assert forall i :: 0 <= i < |d| ==> t[s + i] == d[i];
    assert Part(t, s, |d|) == d;
    forall i | s <= i < |t| ensures IsDigit(t[i]) { assert t[s + (i - s)] == d[i - s]; }
  }

  lemma {:induction false} TenDigits(n: nat)
    requires n <= 0x8000_0000
    ensures |Digits(n)| <= 10
  {
    assert Power10(10) == 10_000_000_000;
    DigitsShort(n, 10, Power10(10));
  }

  /** Few digits, with a minus sign or none, are a numeral of their value. */
  lemma {:induction false} IntegerNumeral(t: Bytes, s: nat, n: Int32)
    requires s < |t| <= s + 10 && AllDigits(t, s, |t|) && s == (if t[0] == HYPHEN then 1 else 0)
    requires var v := DigitsValue(Part(t, s, |t| - s)); n == if s == 1 then -v else v
    ensures IsNumeral(t) && TreeOf(Numeric(t)) == Number(n)
  {
    IntegerTaken(t, s, |t|);
    assert IsDigit(t[s]);
  }

  /** A printed number is a numeral of its value. */
  lemma {:induction false} PrintedNumeral(n: Int32)
    ensures IsNumeral(PrintNumber(n)) && TreeOf(Numeric(PrintNumber(n))) == Number(n)
  {
    var m: int := n;
    PrintedSign(n);
    DigitsRoundTrip(if m < 0 then -m else m);
    TenDigits(if m < 0 then -m else m);
    IntegerNumeral(PrintNumber(n), if m < 0 then 1 else 0, n);
  }

  /** parse_number undoes print_number on every 32-bit integer. */
  lemma {:induction false} NumberRoundTrip(c: Bytes, o: nat, n: Int32)
    requires TextAt(c, o, PrintNumber(n)) && NumberEnds(c, o + |PrintNumber(n)|)
    ensures ParseNumber(c, o) == Some((Number(n), o + |PrintNumber(n)|))
  {
    PrintedNumeral(n);
    NumberRead(c, o, PrintNumber(n));
  }

  // ----- values -----

  /** Trees whose text can be read back: no invalid and no raw nodes. */
  predicate Plain(t: Json) {
    match t
    case Invalid => false
    case Raw(_) => false
    case Array(items) => forall i :: 0 <= i < |items| ==> Plain(items[i])
    case Object(members) => forall i :: 0 <= i < |members| ==> Plain(members[i].value)
    case _ => true
  }

  ghost predicate PlainItems(whole: Json, items: seq<Json>) {
    forall i :: 0 <= i < |items| ==> items[i] < whole && Plain(items[i])
  }

  ghost predicate PlainMembers(whole: Json, members: seq<Member>) {
    forall i :: 0 <= i < |members| ==> members[i].value < whole && Plain(members[i].value)
  }

  /** At most `n` arrays and objects deep. */
  predicate NestsWithin(t: Json, n: int) {
    match t
    case Array(items) => n > 0 && forall i :: 0 <= i < |items| ==> NestsWithin(items[i], n - 1)
    case Object(members) => n > 0 && forall i :: 0 <= i < |members| ==> NestsWithin(members[i].value, n - 1)
    case _ => true
  }

  /** The white space the printer writes in front of an element. */
  function Gap(format: bool): Bytes {
    if format then [SPACE] else []
  }

  /** And of a member at depth `d`, or of the closing brace. */
  function Line(format: bool, d: nat): Bytes {
    if format then [NEWLINE] + Repeat(TAB, d) else []
  }

  /** The parts of a printed text. */
  function Source(t: Json, format: bool, d: nat): Syntax
    requires Plain(t)
    decreases t, 1, 0
  {
    match t
    case Number(n) => Numeric(PrintNumber(n))
    case Text(s) => Quoted(LiteralOf(s))
    case Array(items) => Brackets([], ItemsOf(t, items, [], format, d + 1))
    case Object(members) => Braces(Line(format, d), FieldsOf(t, members, format, d + 1))
    case _ => Word(t)
  }

  function ItemsOf(ghost whole: Json, items: seq<Json>, before: Bytes, format: bool, d: nat): (r: seq<Item>)
    requires PlainItems(whole, items)
    ensures |r| == |items|
    decreases whole, 0, |items|
  {
    if items == [] then []
    else [Item(before, Source(items[0], format, d), [])] + ItemsOf(whole, items[1..], Gap(format), format, d)
  }

  function FieldsOf(ghost whole: Json, members: seq<Member>, format: bool, d: nat): (r: seq<Field>)
    requires PlainMembers(whole, members) && d > 0
    ensures |r| == |members|
    decreases whole, 0, |members|
  {
    if members == [] then []
    else [FieldOf(members[0], format, d, |members| == 1)] + FieldsOf(whole, members[1..], format, d)
  }

  function FieldOf(m: Member, format: bool, d: nat, last: bool): Field
    requires Plain(m.value) && d > 0
    decreases m.value, 2, 0
  {
    Field(Line(format, d), LiteralOf(m.name), [], if format then [TAB] else [], Source(m.value, format, d),
          if last then Line(format, d - 1) else [])
  }

  /** The source of a tree spells its printed text, stands for it and nests as it does. */
  ghost predicate Spells(s: Syntax, t: Json, text: Bytes) {
    Valid(s) && TextOf(s) == text && TreeOf(s) == t && forall n :: Nests(s, n) <==> NestsWithin(t, n)
  }

  lemma {:induction false} SourceSpells(t: Json, format: bool, d: nat)
    requires Plain(t)
    ensures Spells(Source(t, format, d), t, Print(t, format, d))
    decreases t, 1, 0
  {
    match t {
      case Number(n) => PrintedNumeral(n);
      case Text(s) => LiteralSpells(s);
      case Array(items) => ArraySpells(t, format, d);
      case Object(members) => ObjectSpells(t, format, d);
      case _ =>
    }
  }

  lemma LineWhite(format: bool, d: nat)
    ensures White(Line(format, d)) && White(Gap(format))
  {
  }

  // ----- arrays -----

  ghost predicate ItemsSpell(s: Syntax, xs: seq<Item>, items: seq<Json>, text: Bytes) {
    && Items(s, xs) && (xs != [] ==> ItemsText(s, xs) == text) && TreesOf(s, xs) == items
    && forall n :: AllNest(xs, n) <==> forall i :: 0 <= i < |items| ==> NestsWithin(items[i], n)
  }

  lemma {:induction false} ArraySpells(t: Json, format: bool, d: nat)
    requires Plain(t) && t.Array?
    ensures Spells(Source(t, format, d), t, Print(t, format, d))
    decreases t, 0, |t.items| + 1
  {
    var s := Source(t, format, d);
    var text := PrintItems(t, t.items, format, d + 1);
    ItemsOfSpell(s, t, t.items, [], format, d + 1);
    assert [] + text == text;
    Regroup([LBRACKET], text, [RBRACKET]);
    BracketsSpell(s, t, text);
  }

  lemma {:induction false} BracketsSpell(s: Syntax, t: Json, text: Bytes)
    requires s.Brackets? && t.Array? && |s.items| == |t.items| && ItemsSpell(s, s.items, t.items, text)
    requires White(s.inner) && (t.items == [] ==> text == s.inner)
    ensures Spells(s, t, [LBRACKET] + (text + [RBRACKET]))
  {
    forall n ensures Nests(s, n) <==> NestsWithin(t, n) {
      assert Nests(s, n) <==> n > 0 && AllNest(s.items, n - 1);
    }
  }

  lemma {:induction false} ItemsOfSpell(s: Syntax, whole: Json, items: seq<Json>, before: Bytes, format: bool, d: nat)
    requires PlainItems(whole, items) && White(before)
    requires forall x :: x in ItemsOf(whole, items, before, format, d) ==> x.value < s
    ensures ItemsSpell(s, ItemsOf(whole, items, before, format, d), items, before + PrintItems(whole, items, format, d))
    decreases whole, 0, |items|
  {
    var xs := ItemsOf(whole, items, before, format, d);
    if items != [] {
      LineWhite(format, d);
      SourceSpells(items[0], format, d);
      assert xs[1..] == ItemsOf(whole, items[1..], Gap(format), format, d);
      ItemsOfSpell(s, whole, items[1..], Gap(format), format, d);
      ItemsMore(s, xs, whole, items, before, format, d);
    }
  }

  lemma {:induction false} ItemsMore(s: Syntax, xs: seq<Item>, whole: Json, items: seq<Json>, before: Bytes,
                                     format: bool, d: nat)
    requires PlainItems(whole, items) && items != [] && |xs| == |items| && White(before) && xs[0].value < s
    requires xs[0].before == before && xs[0].after == []
    requires Spells(xs[0].value, items[0], Print(items[0], format, d))
    requires ItemsSpell(s, xs[1..], items[1..], Gap(format) + PrintItems(whole, items[1..], format, d))
    ensures ItemsSpell(s, xs, items, before + PrintItems(whole, items, format, d))
  {
    ItemsCons(s, xs);
    ItemsTextMore(s, xs, whole, items, before, format, d);
    forall n ensures AllNest(xs, n) <==> forall i :: 0 <= i < |items| ==> NestsWithin(items[i], n) {
      AllNestMore(xs, n);
      NestMore(items, n);
    }
  }

  lemma NestMore(items: seq<Json>, n: int)
    requires items != []
    ensures (forall i :: 0 <= i < |items| ==> NestsWithin(items[i], n))
       <==> NestsWithin(items[0], n) && forall i :: 0 <= i < |items[1..]| ==> NestsWithin(items[1..][i], n)
  {
    assert forall i :: 1 <= i < |items| ==> items[i] == items[1..][i - 1];
  }

  lemma ItemsCons(s: Syntax, xs: seq<Item>)
    requires xs != [] && Items(s, xs[1..]) && xs[0].value < s
    requires White(xs[0].before) && White(xs[0].after) && Valid(xs[0].value)
    ensures Items(s, xs)
  {
    assert forall i :: 1 <= i < |xs| ==> xs[i] == xs[1..][i - 1];
  }

  lemma {:induction false} ItemsTextMore(s: Syntax, xs: seq<Item>, whole: Json, items: seq<Json>, before: Bytes,
                                         format: bool, d: nat)
    requires PlainItems(whole, items) && items != [] && |xs| == |items| && Items(s, xs)
    requires xs[0].before == before && xs[0].after == [] && TextOf(xs[0].value) == Print(items[0], format, d)
    requires |xs| > 1 ==> ItemsText(s, xs[1..]) == Gap(format) + PrintItems(whole, items[1..], format, d)
    ensures ItemsText(s, xs) == before + PrintItems(whole, items, format, d)
  {
    var v, rest := Print(items[0], format, d), PrintItems(whole, items[1..], format, d);
    AppendNothing(v);
    if |items| == 1 {
      AppendNothing(ItemText(xs[0]));
      assert v + [] + rest == v;
    } else {
      Regroup([COMMA], Gap(format), rest);
      assert [COMMA] + Gap(format) == Separator(format);
      Regroup(before, v, Separator(format) + rest);
      Regroup(v, Separator(format), rest);
    }
  }

  // ----- objects -----

  predicate MembersNest(members: seq<Member>, n: int) {
    forall i :: 0 <= i < |members| ==> NestsWithin(members[i].value, n)
  }

  ghost predicate FieldsSpell(s: Syntax, xs: seq<Field>, members: seq<Member>, text: Bytes) {
    && Members(s, xs) && (xs != [] ==> FieldsText(s, xs) == text) && MembersOf(s, xs) == members
    && forall n :: FieldsNest(xs, n) <==> MembersNest(members, n)
  }

  /** The printed members with the line break in front of them and the one behind them. */
  function MembersPart(ghost whole: Json, members: seq<Member>, format: bool, d: nat): Bytes
    requires PlainMembers(whole, members) && d > 0
  {
    var newline := if format then [NEWLINE] else [];
    newline + (PrintMembers(whole, members, format, d) + if format then Repeat(TAB, d - 1) else [])
  }

  lemma {:induction false} ObjectSpells(t: Json, format: bool, d: nat)
    requires Plain(t) && t.Object?
    ensures Spells(Source(t, format, d), t, Print(t, format, d))
    decreases t, 0, |t.members| + 1
  {
    var s := Source(t, format, d);
    LineWhite(format, d);
    FieldsOfSpell(s, t, t.members, format, d + 1);
    ObjectText(t, format, d);
    BracesSpell(s, t, MembersPart(t, t.members, format, d + 1));
  }

  lemma {:induction false} BracesSpell(s: Syntax, t: Json, text: Bytes)
    requires s.Braces? && t.Object? && |s.fields| == |t.members| && FieldsSpell(s, s.fields, t.members, text)
    requires White(s.inner) && (t.members == [] ==> text == s.inner)
    ensures Spells(s, t, [LBRACE] + (text + [RBRACE]))
  {
    forall n ensures Nests(s, n) <==> NestsWithin(t, n) {
      assert Nests(s, n) <==> n > 0 && FieldsNest(s.fields, n - 1);
    }
  }

  lemma {:induction false} ObjectText(t: Json, format: bool, d: nat)
    requires Plain(t) && t.Object?
    ensures Print(t, format, d) == [LBRACE] + (MembersPart(t, t.members, format, d + 1) + [RBRACE])
    ensures t.members == [] ==> MembersPart(t, t.members, format, d + 1) == Line(format, d)
  {
    var newline, ms, tabs := if format then [NEWLINE] else [], PrintMembers(t, t.members, format, d + 1),
                           if format then Repeat(TAB, d) else [];
    assert OpenObject(format) == [LBRACE] + newline;
    Regroup([LBRACE], newline, ms);
    Regroup([LBRACE], newline + ms, tabs);
    Regroup(newline, ms, tabs);
    Regroup([LBRACE], newline + (ms + tabs), [RBRACE]);
  }

  lemma {:induction false} FieldsOfSpell(s: Syntax, whole: Json, members: seq<Member>, format: bool, d: nat)
    requires PlainMembers(whole, members) && d > 0
    requires forall x :: x in FieldsOf(whole, members, format, d) ==> x.value < s
    ensures FieldsSpell(s, FieldsOf(whole, members, format, d), members, MembersPart(whole, members, format, d))
    decreases whole, 0, |members|
  {
    var xs := FieldsOf(whole, members, format, d);
    if members != [] {
      SourceSpells(members[0].value, format, d);
      LiteralSpells(members[0].name);
      assert xs[1..] == FieldsOf(whole, members[1..], format, d);
      FieldsOfSpell(s, whole, members[1..], format, d);
      FieldsMore(s, xs, whole, members, format, d);
    }
  }

  lemma {:induction false} FieldsMore(s: Syntax, xs: seq<Field>, whole: Json, members: seq<Member>, format: bool,
                                         d: nat)
    requires PlainMembers(whole, members) && members != [] && |xs| == |members| && d > 0 && xs[0].value < s
    requires xs[0] == FieldOf(members[0], format, d, |members| == 1)
    requires Spells(xs[0].value, members[0].value, Print(members[0].value, format, d))
    requires IsLiteral(xs[0].name) && LiteralText(xs[0].name) == PrintString(members[0].name)
    requires StringOf(xs[0].name) == members[0].name
    requires FieldsSpell(s, xs[1..], members[1..], MembersPart(whole, members[1..], format, d))
    ensures FieldsSpell(s, xs, members, MembersPart(whole, members, format, d))
  {
    FieldValid(xs[0], members[0], format, d, |members| == 1);
    FieldsCons(s, xs);
    FieldsTextMore(s, xs, whole, members, format, d);
    MembersOfMore(s, xs, members);
    FieldsNestAlike(xs, members);
  }

  lemma {:induction false} FieldValid(f: Field, m: Member, format: bool, d: nat, last: bool)
    requires Plain(m.value) && d > 0 && f == FieldOf(m, format, d, last) && IsLiteral(f.name) && Valid(f.value)
    ensures ValidField(f)
  {
    LineWhite(format, d);
    LineWhite(format, d - 1);
  }

  lemma {:induction false} MembersOfMore(s: Syntax, xs: seq<Field>, members: seq<Member>)
    requires xs != [] && members != [] && Members(s, xs) && MembersOf(s, xs[1..]) == members[1..]
    requires MemberOf(xs[0]) == members[0]
    ensures MembersOf(s, xs) == members
  {
    assert members == [members[0]] + members[1..];
  }

  lemma {:induction false} FieldsNestAlike(xs: seq<Field>, members: seq<Member>)
    requires xs != [] && members != []
    requires forall n :: Nests(xs[0].value, n) <==> NestsWithin(members[0].value, n)
    requires forall n :: FieldsNest(xs[1..], n) <==> MembersNest(members[1..], n)
    ensures forall n :: FieldsNest(xs, n) <==> MembersNest(members, n)
  {
    forall n ensures FieldsNest(xs, n) <==> MembersNest(members, n) {
      FieldsNestMore(xs, n);
      MembersNestMore(members, n);
    }
  }

  lemma MembersNestMore(members: seq<Member>, n: int)
    requires members != []
    ensures MembersNest(members, n) <==> NestsWithin(members[0].value, n) && MembersNest(members[1..], n)
  {
    assert forall i :: 1 <= i < |members| ==> members[i] == members[1..][i - 1];
  }

  lemma FieldsCons(s: Syntax, xs: seq<Field>)
    requires xs != [] && Members(s, xs[1..]) && xs[0].value < s && ValidField(xs[0])
    ensures Members(s, xs)
  {
    assert forall i :: 1 <= i < |xs| ==> xs[i] == xs[1..][i - 1];
  }

  lemma {:induction false} FieldsTextMore(s: Syntax, xs: seq<Field>, whole: Json, members: seq<Member>, format: bool,
                                          d: nat)
    requires PlainMembers(whole, members) && members != [] && |xs| == |members| && d > 0 && Members(s, xs)
    requires xs[0] == FieldOf(members[0], format, d, |members| == 1)
    requires LiteralText(xs[0].name) == PrintString(members[0].name)
    requires TextOf(xs[0].value) == Print(members[0].value, format, d)
    requires |xs| > 1 ==> FieldsText(s, xs[1..]) == MembersPart(whole, members[1..], format, d)
    ensures FieldsText(s, xs) == MembersPart(whole, members, format, d)
  {
    var m, rest := members[0], PrintMembers(whole, members[1..], format, d);
    var newline, tabs, indent := if format then [NEWLINE] else [], if format then Repeat(TAB, d) else [],
                                 if format then Repeat(TAB, d - 1) else [];
    var name, gap, v := PrintString(m.name), AfterName(format), Print(m.value, format, d);
    FieldArranged(newline, tabs, name, if format then [TAB] else [], gap, v, xs[0].after);
    assert FieldText(xs[0]) == (newline + tabs) + (name + (gap + (v + xs[0].after)));
    assert PrintMember(m, format, d, |members| == 1) == (tabs + name + gap) + v + AfterMember(format, |members| == 1);
    if |members| == 1 {
      assert Line(format, d - 1) == newline + indent;
      LastArranged(newline, tabs, name, gap, v, indent);
    } else {
      MemberArranged(newline, tabs, name, gap, v, rest, indent);
    }
  }

  lemma FieldArranged(newline: Bytes, tabs: Bytes, name: Bytes, tab: Bytes, gap: Bytes, v: Bytes, after: Bytes)
    requires gap == [COLON] + tab
    ensures (newline + tabs) + (name + ([] + ([COLON] + (tab + (v + after)))))
         == (newline + tabs) + (name + (gap + (v + after)))
  {
    Regroup([COLON], tab, v + after);
    assert [] + (gap + (v + after)) == gap + (v + after);
  }

  lemma LastArranged(newline: Bytes, tabs: Bytes, name: Bytes, gap: Bytes, v: Bytes, indent: Bytes)
    ensures ((newline + tabs) + (name + (gap + (v + (newline + indent))))) + []
         == newline + (((((tabs + name + gap) + v) + ([] + newline)) + []) + indent)
  {
    var rest := v + (newline + indent);
    AppendNothing((newline + tabs) + (name + (gap + rest)));
    AppendNothing(((tabs + name + gap) + v) + ([] + newline));
    assert [] + newline == newline;
    Regroup((tabs + name + gap) + v, newline, indent);
    Regroup(tabs + name + gap, v, newline + indent);
    Regroup(tabs + name, gap, rest);
    Regroup(tabs, name, gap + rest);
    Regroup(newline, tabs, name + (gap + rest));
  }

  lemma MemberArranged(newline: Bytes, tabs: Bytes, name: Bytes, gap: Bytes, v: Bytes, more: Bytes, indent: Bytes)
    ensures ((newline + tabs) + (name + (gap + (v + [])))) + ([COMMA] + (newline + (more + indent)))
         == newline + (((((tabs + name + gap) + v) + ([COMMA] + newline)) + more) + indent)
  {
    var rest := [COMMA] + (newline + (more + indent));
    AppendNothing(v);
    Regroup([COMMA], newline, more + indent);
    Regroup((tabs + name + gap) + v, [COMMA] + newline, more);
    Regroup(((tabs + name + gap) + v) + ([COMMA] + newline), more, indent);
    Regroup((tabs + name + gap) + v, [COMMA] + newline, more + indent);
    Regroup(tabs + name + gap, v, rest);
    Regroup(tabs + name, gap, v + rest);
    Regroup(tabs, name, gap + (v + rest));
    Regroup(newline, tabs, name + (gap + (v + rest)));
    Regroup(newline + tabs, name + (gap + v), rest);
    Regroup(name, gap + v, rest);
    Regroup(gap, v, rest);
  }

  // ----- the law -----

  /** A printed value is read back in any context, or refused exactly when it nests too deep. */
  lemma {:induction false} ValueRoundTrip(c: Bytes, o: nat, t: Json, format: bool, d: nat, depth: nat)
    requires Plain(t) && depth <= NESTING_LIMIT
    requires TextAt(c, o, Print(t, format, d)) && NumberEnds(c, o + |Print(t, format, d)|)
    ensures ParseValue(c, o, depth)
         == if NestsWithin(t, NESTING_LIMIT - depth) then Some((t, o + |Print(t, format, d)|)) else None
  {
    var s := Source(t, format, d);
    SourceSpells(t, format, d);
    ReadValue(c, o, o + |Print(t, format, d)|, s, depth);
  }

  /**
   * Printing a tree, formatted or not, and parsing the text gives the tree back, members in order, when it
   * nests at most 1000 deep; a deeper tree is refused. Whatever stands behind the text does not matter if it
   * cannot continue a number, unless a terminator is asked for.
   */
  lemma {:induction false} PrintedIsRead(t: Json, format: bool, rest: Bytes, requireTerminator: bool)
    requires Plain(t) && (rest != [] ==> Ends(rest[0]))
    ensures ParseDocument(Print(t, format, 0) + rest, requireTerminator)
         == if NestsWithin(t, NESTING_LIMIT) && (requireTerminator ==> Terminated(rest)) then Some(t) else None
  {
    var s := Source(t, format, 0);
    SourceSpells(t, format, 0);
    DocumentRead([], [], s, rest, requireTerminator);
    assert [] + ([] + (TextOf(s) + rest)) == Print(t, format, 0) + rest;
  }

  /** The text with its terminator. */
  lemma PrintThenParse(t: Json, format: bool, requireTerminator: bool)
    requires Plain(t)
    ensures ParseDocument(Print(t, format, 0) + [0], requireTerminator)
         == if NestsWithin(t, 1000) then Some(t) else None
  {
    PrintedIsRead(t, format, [0], requireTerminator);
  }

  /** The same with a length and no terminator. */
  lemma PrintThenParseLength(t: Json, format: bool)
    requires Plain(t)
    ensures ParseDocument(Print(t, format, 0), false) == if NestsWithin(t, 1000) then Some(t) else None
  {
    PrintedIsRead(t, format, [], false);
    AppendNothing(Print(t, format, 0));
  }
}
