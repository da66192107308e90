// Every JSON text: values with white space around their parts, spelled in any way. The parser reads each as the
// tree it stands for.
module JsonSyntax {
  import opened Wrappers
  import opened Sequences
  import opened CText
  import opened JsonTree
  import opened Octets
  import opened JsonText
  import opened Strtod
  import opened JsonGrammar
  import opened JsonEscapes

  // ----- texts -----

  /** A text by its parts: the words null, true and false, numbers, strings, arrays and objects. */
  datatype Syntax =
    | Word(word: Json)
    | Numeric(numeral: Bytes)
    | Quoted(literal: Literal)
    | Brackets(inner: Bytes, items: seq<Item>)
    | Braces(inner: Bytes, fields: seq<Field>)

  /** An element and the white space around it. */
  datatype Item = Item(before: Bytes, value: Syntax, after: Bytes)

  /** A member: its name, the white space around the colon, its value. */
  datatype Field = Field(before: Bytes, name: Literal, middle: Bytes, behind: Bytes, value: Syntax, after: Bytes)

  predicate White(b: Bytes) {
    forall i :: 0 <= i < |b| ==> b[i] <= 32
  }

  /** A number that begins as JSON numbers do and fits the parser's copy. */
  predicate IsNumeral(t: Bytes) {
    t != [] && NumberEnd(t) == |t| <= NUMBER_BUFFER && (t[0] == HYPHEN || IsDigit(t[0]))
  }

  predicate Valid(s: Syntax) {
    match s
    case Word(v) => v.Null? || v.True? || v.False?
    case Numeric(t) => IsNumeral(t)
    case Quoted(l) => IsLiteral(l)
    case Brackets(w, items) =>
      White(w)
      && forall i :: 0 <= i < |items| ==> White(items[i].before) && White(items[i].after) && Valid(items[i].value)
    case Braces(w, fields) =>
      White(w) && forall i :: 0 <= i < |fields| ==> ValidField(fields[i])
  }

  predicate ValidField(f: Field) {
    && White(f.before) && White(f.middle) && White(f.behind) && White(f.after)
    && IsLiteral(f.name) && Valid(f.value)
  }

  /** Elements of the text `whole`. */
  ghost predicate Items(whole: Syntax, items: seq<Item>) {
    forall i :: 0 <= i < |items| ==>
      items[i].value < whole && White(items[i].before) && White(items[i].after) && Valid(items[i].value)
  }

  ghost predicate Members(whole: Syntax, fields: seq<Field>) {
    forall i :: 0 <= i < |fields| ==> fields[i].value < whole && ValidField(fields[i])
  }

  function TextOf(s: Syntax): Bytes
    requires Valid(s)
    decreases s, 1, 0
  {
    match s
    case Word(v) => if v.Null? then NULL_TEXT else if v.True? then TRUE_TEXT else FALSE_TEXT
    case Numeric(t) => t
    case Quoted(l) => LiteralText(l)
    case Brackets(w, items) => [LBRACKET] + ((if items == [] then w else ItemsText(s, items)) + [RBRACKET])
    case Braces(w, fields) => [LBRACE] + ((if fields == [] then w else FieldsText(s, fields)) + [RBRACE])
  }

  function ItemText(x: Item): Bytes
    requires Valid(x.value)
    decreases x.value, 2, 0
  {
    x.before + (TextOf(x.value) + x.after)
  }

  function ItemsText(ghost whole: Syntax, items: seq<Item>): Bytes
    requires items != [] && Items(whole, items)
    decreases whole, 0, |items|
  {
    ItemText(items[0]) + if |items| == 1 then [] else [COMMA] + ItemsText(whole, items[1..])
  }

  function FieldText(f: Field): Bytes
    requires ValidField(f)
    decreases f.value, 2, 0
  {
    f.before + (LiteralText(f.name) + (f.middle + ([COLON] + (f.behind + (TextOf(f.value) + f.after)))))
  }

  function FieldsText(ghost whole: Syntax, fields: seq<Field>): Bytes
    requires fields != [] && Members(whole, fields)
    decreases whole, 0, |fields|
  {
    FieldText(fields[0]) + if |fields| == 1 then [] else [COMMA] + FieldsText(whole, fields[1..])
  }

  // ----- what they stand for -----

  function TreeOf(s: Syntax): Json
    requires Valid(s)
    decreases s, 1, 0
  {
    match s
    case Word(v) => v
    case Numeric(t) => Number(Saturate(WholePart(t)))
    case Quoted(l) => Text(StringOf(l))
    case Brackets(_, items) => Array(TreesOf(s, items))
    case Braces(_, fields) => Object(MembersOf(s, fields))
  }

  function TreesOf(ghost whole: Syntax, items: seq<Item>): seq<Json>
    requires Items(whole, items)
    decreases whole, 0, |items|
  {
    if items == [] then [] else [TreeOf(items[0].value)] + TreesOf(whole, items[1..])
  }

  function MembersOf(ghost whole: Syntax, fields: seq<Field>): seq<Member>
    requires Members(whole, fields)
    decreases whole, 0, |fields|
  {
    if fields == [] then []
    else [Member(StringOf(fields[0].name), TreeOf(fields[0].value))] + MembersOf(whole, fields[1..])
  }

  /** At most `n` arrays and objects deep. */
  predicate Nests(s: Syntax, n: int) {
    match s
    case Brackets(_, items) => n > 0 && forall i :: 0 <= i < |items| ==> Nests(items[i].value, n - 1)
    case Braces(_, fields) => n > 0 && forall i :: 0 <= i < |fields| ==> Nests(fields[i].value, n - 1)
    case _ => true
  }

  predicate AllNest(items: seq<Item>, n: int) {
    forall i :: 0 <= i < |items| ==> Nests(items[i].value, n)
  }

  predicate FieldsNest(fields: seq<Field>, n: int) {
    forall i :: 0 <= i < |fields| ==> Nests(fields[i].value, n)
  }

  // ----- white space -----

  lemma {:induction false} SkipFromOver(c: Bytes, o: nat, n: nat)
    requires o + n < |c| && (forall i :: o <= i < o + n ==> c[i] <= 32) && c[o + n] > 32
    ensures SkipFrom(c, o) == o + n
    decreases n
  {
    if n > 0 { SkipFromOver(c, o + 1, n - 1); }
  }

  /** White space in front of a visible byte is skipped up to that byte. */
  lemma SkipOver(c: Bytes, o: nat, white: Bytes)
    requires TextAt(c, o, white) && White(white) && o + |white| < |c| && c[o + |white|] > 32
    ensures Skip(c, o) == o + |white|
  {
    forall i | o <= i < o + |white| ensures c[i] <= 32 { assert white[i - o] == c[i]; }
    SkipFromOver(c, o, |white|);
  }

  lemma {:induction false} SkipVisible(c: Bytes, o: nat)
    requires o < |c| && c[o] > 32
    ensures Skip(c, o) == o
  {
  }

  // ----- words and numbers -----

  lemma OtherStart(c: Bytes, o: nat, text: Bytes)
    requires o < |c| && text != [] && c[o] != text[0]
    ensures !TextAt(c, o, text)
  {
  }

  lemma NoWord(c: Bytes, o: nat)
    requires o < |c| && c[o] != 110 && c[o] != 116 && c[o] != 102
    ensures !TextAt(c, o, NULL_TEXT) && !TextAt(c, o, TRUE_TEXT) && !TextAt(c, o, FALSE_TEXT)
  {
    OtherStart(c, o, NULL_TEXT);
    OtherStart(c, o, TRUE_TEXT);
    OtherStart(c, o, FALSE_TEXT);
  }

  lemma {:induction false} CopyReaches(c: Bytes, i: nat, e: nat, limit: nat)
    requires i <= e <= limit <= |c| && forall j :: i <= j < e ==> NumberByte(c[j])
    ensures CopyEnd(c, i, limit) >= e
    decreases e - i
  {
    if i < e { CopyReaches(c, i + 1, e, limit); }
  }

  /** Every byte of a number is one that the parser copies. */
  lemma NumeralBytes(t: Bytes)
    requires NumberEnd(t) == |t| > 0
    ensures forall i :: 0 <= i < |t| ==> NumberByte(t[i])
  {
    LongestNumeral(t, |t|);
    var s: nat, i: nat, f: nat, g: nat :| Shape(t, |t|, s, i, f, g);
    forall j | 0 <= j < |t| ensures NumberByte(t[j]) {
      if s <= j < i { assert IsDigit(t[j]); }
      if i < j < f { assert IsDigit(t[j]); }
      if f < |t| && g <= j { assert IsDigit(t[j]); }
    }
  }

  /** The number is copied whole, and what is copied behind it does not belong to it. */
  lemma {:induction false} NumberCopied(c: Bytes, o: nat, t: Bytes)
    requires IsNumeral(t) && TextAt(c, o, t) && NumberEnds(c, o + |t|)
    ensures t <= NumberText(c, o) && NumberEnds(NumberText(c, o), |t|)
  {
    NumeralBytes(t);
    forall j | o <= j < o + |t| ensures NumberByte(c[j]) { assert t[j - o] == c[o + (j - o)]; }
    CopyReaches(c, o, o + |t|, NumberLimit(c, o));
  }

  lemma {:induction false} NodeTaken(t: Bytes, text: Bytes)
    requires IsNumeral(t) && t <= text && NumberEnds(text, |t|)
    ensures NumberOf(text) == Some((TreeOf(Numeric(t)), |t|))
  {
    TakenAlone(t, text);
  }

  lemma {:induction false} NumberRead(c: Bytes, o: nat, t: Bytes)
    requires IsNumeral(t) && TextAt(c, o, t) && NumberEnds(c, o + |t|)
    ensures ParseNumber(c, o) == Some((TreeOf(Numeric(t)), o + |t|))
  {
    NumberCopied(c, o, t);
    NumberFromCopy(c, o, t);
  }

  lemma {:induction false} NumberFromCopy(c: Bytes, o: nat, t: Bytes)
    requires o < |c| && IsNumeral(t) && t <= NumberText(c, o) && NumberEnds(NumberText(c, o), |t|)
    ensures ParseNumber(c, o) == Some((TreeOf(Numeric(t)), o + |t|))
  {
    NodeTaken(t, NumberText(c, o));
  }

  /** Of a longer number the first 63 bytes are read, and the parser goes on in the middle of it. */
  lemma {:induction false} LongNumberCut(c: Bytes, o: nat, t: Bytes)
    requires |t| == NumberEnd(t) == 63 && TextAt(c, o, t)
    ensures ParseNumber(c, o) == Some((Number(Saturate(WholePart(t))), o + 63))
  {
    NumeralBytes(t);
    forall j | o <= j < o + 63 ensures NumberByte(c[j]) { assert t[j - o] == c[o + (j - o)]; }
    CopyReaches(c, o, o + 63, NumberLimit(c, o));
    assert NumberText(c, o) == t;
  }

  /**
   * The number node of a numeral: its value cut off toward zero where that fits, else the nearest 32-bit
   * integer.
   */
  lemma NumeralMeans(t: Bytes, s: nat, i: nat, f: nat, g: nat)
    requires IsNumeral(t) && Shape(t, |t|, s, i, f, g)
    ensures var x := RealValue(t, |t|, s, i, f, g); var n := TreeOf(Numeric(t)).n;
      if x >= 2147483647.0 then n == 0x7FFF_FFFF
      else if x <= -2147483648.0 then n == -0x8000_0000
      else TowardZero(n, x)
  {
    NumeralValue(t, s, i, f, g);
  }

  // ----- values -----

  /** What the parser makes of a text: its tree, or nothing if it nests too deep. */
  function Outcome<T>(value: T, nests: bool, end: nat): Option<(T, nat)> {
    if nests then Some((value, end)) else None
  }

  /** The first byte tells the kind of a value. */
  lemma FirstByte(s: Syntax)
    requires Valid(s)
    ensures var t := TextOf(s);
      && t != [] && 32 < t[0] < 128 && t[0] != RBRACKET && t[0] != RBRACE
      && (s.Numeric? ==> t[0] == HYPHEN || 48 <= t[0] <= 57)
      && (s.Quoted? ==> t[0] == QUOTE) && (s.Brackets? ==> t[0] == LBRACKET) && (s.Braces? ==> t[0] == LBRACE)
  {
  }

  /** The text of `s` stands from `o` to `e`; nothing behind a number belongs to it. */
  predicate Stands(c: Bytes, o: nat, e: nat, s: Syntax) {
    Valid(s) && TextAt(c, o, TextOf(s)) && e == o + |TextOf(s)| && (s.Numeric? ==> NumberEnds(c, e))
  }

  /** It is read as the tree it stands for. */
  ghost predicate ValueRead(c: Bytes, o: nat, e: nat, s: Syntax, depth: nat) {
    Valid(s) && o <= |c| && ParseValue(c, o, depth) == Outcome(TreeOf(s), Nests(s, NESTING_LIMIT - depth), e)
  }

  lemma {:induction false} FirstStands(c: Bytes, o: nat, e: nat, s: Syntax)
    requires Stands(c, o, e, s)
    ensures o < e <= |c| && c[o] == TextOf(s)[0] > 32 && c[o] != RBRACKET && c[o] != RBRACE && Skip(c, o) == o
  {
    FirstByte(s);
    assert c[o + 0] == TextOf(s)[0];
    SkipVisible(c, o);
  }

  lemma {:induction false} ReadValue(c: Bytes, o: nat, e: nat, s: Syntax, depth: nat)
    requires Stands(c, o, e, s) && depth <= NESTING_LIMIT
    ensures ValueRead(c, o, e, s, depth)
    decreases s, 3, 0
  {
    match s {
      case Word(v) => ReadWord(c, o, e, v, depth);
      case Numeric(t) => ReadNumeral(c, o, e, t, depth);
      case Quoted(l) => ReadQuoted(c, o, e, l, depth);
      case Brackets(_, _) =>
        ReadArray(c, o, e, s, depth);
        ArrayRead(c, o, e, s, depth);
      case Braces(_, _) =>
        ReadObject(c, o, e, s, depth);
        ObjectRead(c, o, e, s, depth);
    }
  }

  lemma {:induction false} ReadWord(c: Bytes, o: nat, e: nat, v: Json, depth: nat)
    requires Stands(c, o, e, Word(v))
    ensures ValueRead(c, o, e, Word(v), depth)
  {
    assert c[o + 0] == TextOf(Word(v))[0];
    if !v.Null? { OtherStart(c, o, NULL_TEXT); }
    if !v.False? { OtherStart(c, o, FALSE_TEXT); }
  }

  lemma {:induction false} ReadNumeral(c: Bytes, o: nat, e: nat, t: Bytes, depth: nat)
    requires Stands(c, o, e, Numeric(t))
    ensures ValueRead(c, o, e, Numeric(t), depth)
  {
    FirstStands(c, o, e, Numeric(t));
    NoWord(c, o);
    NumberRead(c, o, t);
  }

  lemma {:induction false} ReadQuoted(c: Bytes, o: nat, e: nat, l: Literal, depth: nat)
    requires Stands(c, o, e, Quoted(l))
    ensures ValueRead(c, o, e, Quoted(l), depth)
  {
    LiteralRead(c, o, l);
    QuotedRead(c, o, e, l, depth);
  }

  lemma {:induction false} QuotedRead(c: Bytes, o: nat, e: nat, l: Literal, depth: nat)
    requires IsLiteral(l) && ParseString(c, o) == Some((StringOf(l), e))
    ensures ValueRead(c, o, e, Quoted(l), depth)
  {
    assert c[o] == QUOTE;
    NoWord(c, o);
  }

  // ----- arrays -----

  ghost predicate BracketsRead(c: Bytes, o: nat, e: nat, s: Syntax, depth: nat)
    requires Valid(s) && s.Brackets?
  {
    o < |c| && c[o] == LBRACKET
    && ParseArray(c, o, depth) == Outcome(TreesOf(s, s.items), Nests(s, NESTING_LIMIT - depth), e)
  }

  lemma {:induction false} ArrayRead(c: Bytes, o: nat, e: nat, s: Syntax, depth: nat)
    requires Valid(s) && s.Brackets? && BracketsRead(c, o, e, s, depth)
    ensures ValueRead(c, o, e, s, depth)
  {
    NoWord(c, o);
  }

  lemma {:induction false} ReadArray(c: Bytes, o: nat, e: nat, s: Syntax, depth: nat)
    requires s.Brackets? && Stands(c, o, e, s) && depth <= NESTING_LIMIT
    ensures BracketsRead(c, o, e, s, depth)
    decreases s, 2, 0
  {
    FirstStands(c, o, e, s);
    if depth == NESTING_LIMIT {
      DeepArray(c, o, e, s);
    } else if s.items == [] {
      EmptyArray(c, o, e, s, depth);
    } else {
      BracketsStand(c, o, e, s);
      ReadItems(c, o + 1, e, s, s.items, depth + 1);
      FilledArray(c, o, e, s, depth);
    }
  }

  lemma {:induction false} DeepArray(c: Bytes, o: nat, e: nat, s: Syntax)
    requires Valid(s) && s.Brackets? && o < |c| && c[o] == TextOf(s)[0]
    ensures BracketsRead(c, o, e, s, NESTING_LIMIT)
  {
  }

  /** Only white space between the brackets. */
  lemma {:induction false} EmptyInside(c: Bytes, o: nat, open: Bytes, w: Bytes, close: Byte)
    requires |open| == 1 && White(w) && close > 32 && TextAt(c, o, open + (w + [close]))
    ensures var e := o + 1 + |w|; Skip(c, o + 1) == e < |c| && c[e] == close
  {
    TextInTwo(c, o, open, w + [close]);
    TextInTwo(c, o + 1, w, [close]);
    assert c[o + 1 + |w| + 0] == [close][0];
    SkipOver(c, o + 1, w);
  }

  lemma {:induction false} EmptyArray(c: Bytes, o: nat, e: nat, s: Syntax, depth: nat)
    requires s.Brackets? && s.items == [] && Stands(c, o, e, s) && c[o] == LBRACKET
    ensures BracketsRead(c, o, e, s, depth)
  {
    EmptyInside(c, o, [LBRACKET], s.inner, RBRACKET);
  }

  lemma Opened(c: Bytes, o: nat, open: Bytes, rest: Bytes)
    requires |open| == 1 && TextAt(c, o, open + rest)
    ensures o < |c| && c[o] == open[0] && TextAt(c, o + 1, rest)
  {
    TextInTwo(c, o, open, rest);
    assert c[o + 0] == open[0];
  }

  /** What stands between its brackets. */
  lemma {:induction false} BracketsStand(c: Bytes, o: nat, e: nat, s: Syntax)
    requires s.Brackets? && s.items != [] && Stands(c, o, e, s)
    ensures c[o] == LBRACKET && ItemsStand(c, o + 1, e, s, s.items)
  {
    Opened(c, o, [LBRACKET], ItemsText(s, s.items) + [RBRACKET]);
    ItemsPlaces(c, o + 1, e, s, s.items);
  }

  lemma {:induction false} FilledArray(c: Bytes, o: nat, e: nat, s: Syntax, depth: nat)
    requires Valid(s) && s.Brackets? && s.items != [] && o < |c| && c[o] == LBRACKET && depth < NESTING_LIMIT
    requires ItemsRead(c, o + 1, e, s, s.items, depth + 1)
    ensures BracketsRead(c, o, e, s, depth)
  {
  }

  /** A byte that cannot continue a number. */
  predicate Ends(b: Byte) {
    NumberEnds([b], 0)
  }

  /** A part that stands behind white space and is followed by white space and a visible byte. */
  predicate Between(c: Bytes, o: nat, p: nat, e: nat, q: nat) {
    Skip(c, o) == p < e <= |c| && Skip(c, p) == p && Skip(c, e) == q < |c|
  }

  lemma {:induction false} Surrounded(c: Bytes, o: nat, before: Bytes, text: Bytes, after: Bytes, rest: Bytes)
    requires White(before) && White(after) && text != [] && text[0] > 32
    requires rest != [] && rest[0] > 32 && Ends(rest[0])
    requires TextAt(c, o, before + (text + (after + rest)))
    ensures var p := o + |before|; var e := p + |text|; var q := e + |after|;
      Between(c, o, p, e, q) && TextAt(c, p, text) && NumberEnds(c, e) && TextAt(c, q, rest) && c[q] == rest[0]
  {
    var p, e, q := o + |before|, o + |before| + |text|, o + |before| + |text| + |after|;
    TextInTwo(c, o, before, text + (after + rest));
    TextInTwo(c, p, text, after + rest);
    TextInTwo(c, e, after, rest);
    assert c[p + 0] == text[0] && c[q + 0] == rest[0];
    SkipOver(c, o, before);
    SkipOver(c, e, after);
    SkipVisible(c, p);
    if after != [] { assert c[e + 0] == after[0]; }
  }

  /** How many bytes an element takes. */
  function ItemLength(x: Item): nat
    requires Valid(x.value)
  {
    |x.before| + |TextOf(x.value)| + |x.after|
  }

  /** An element stands from `o` to `q`, where something visible follows. */
  ghost predicate ItemStands(c: Bytes, o: nat, p: nat, e: nat, q: nat, x: Item) {
    Valid(x.value) && Between(c, o, p, e, q) && Stands(c, p, e, x.value) && q == o + ItemLength(x)
  }

  /** The elements stand one by one from `o` on, separated by commas, and the bracket behind them ends at `end`. */
  ghost predicate ItemsStand(c: Bytes, o: nat, end: nat, whole: Syntax, items: seq<Item>)
    decreases |items|
  {
    items != [] && Items(whole, items)
    && exists p: nat, e: nat, q: nat :: ItemStands(c, o, p, e, q, items[0]) && ItemsFollow(c, q, end, whole, items)
  }

  ghost predicate ItemsFollow(c: Bytes, q: nat, end: nat, whole: Syntax, items: seq<Item>)
    requires items != []
    decreases |items|, 0
  {
    q < |c| && if |items| == 1 then c[q] == RBRACKET && end == q + 1
               else c[q] == COMMA && ItemsStand(c, q + 1, end, whole, items[1..])
  }

  /** The rest behind an element: a comma and the others, or the bracket. */
  function BehindItem(ghost whole: Syntax, items: seq<Item>): Bytes
    requires items != [] && Items(whole, items)
  {
    if |items| == 1 then [RBRACKET] else [COMMA] + (ItemsText(whole, items[1..]) + [RBRACKET])
  }

  lemma {:induction false} ItemsUnfold(whole: Syntax, items: seq<Item>)
    requires items != [] && Items(whole, items)
    ensures var x := items[0];
      ItemsText(whole, items) + [RBRACKET] == x.before + (TextOf(x.value) + (x.after + BehindItem(whole, items)))
    ensures |ItemsText(whole, items)| + 1 == ItemLength(items[0]) + |BehindItem(whole, items)|
    ensures BehindItem(whole, items)[0] == if |items| == 1 then RBRACKET else COMMA
  {
    var x := items[0];
    if |items| == 1 {
      assert ItemsText(whole, items) == ItemText(x);
    } else {
      Regroup(ItemText(x), [COMMA] + ItemsText(whole, items[1..]), [RBRACKET]);
      Regroup([COMMA], ItemsText(whole, items[1..]), [RBRACKET]);
    }
    Regroup(x.before, TextOf(x.value) + x.after, BehindItem(whole, items));
    Regroup(TextOf(x.value), x.after, BehindItem(whole, items));
  }

  /** One element and what is behind it. */
  lemma {:induction false} ItemPlace(c: Bytes, o: nat, x: Item, rest: Bytes) returns (p: nat, e: nat, q: nat)
    requires White(x.before) && White(x.after) && Valid(x.value)
    requires rest != [] && rest[0] > 32 && Ends(rest[0])
    requires TextAt(c, o, x.before + (TextOf(x.value) + (x.after + rest)))
    ensures ItemStands(c, o, p, e, q, x) && TextAt(c, q, rest) && c[q] == rest[0]
  {
    FirstByte(x.value);
    Surrounded(c, o, x.before, TextOf(x.value), x.after, rest);
    p := o + |x.before|;
    e := p + |TextOf(x.value)|;
    q := e + |x.after|;
  }

  /** The text of the elements and the bracket stands from `o` to `end`. */
  ghost predicate ItemsWritten(c: Bytes, o: nat, end: nat, whole: Syntax, items: seq<Item>) {
    items != [] && Items(whole, items)
    && TextAt(c, o, ItemsText(whole, items) + [RBRACKET]) && end == o + |ItemsText(whole, items)| + 1
  }

  lemma {:induction false} FirstPlace(c: Bytes, o: nat, end: nat, whole: Syntax, items: seq<Item>)
    returns (p: nat, e: nat, q: nat)
    requires ItemsWritten(c, o, end, whole, items)
    ensures ItemStands(c, o, p, e, q, items[0]) && q < |c|
    ensures if |items| == 1 then c[q] == RBRACKET && end == q + 1
            else c[q] == COMMA && ItemsWritten(c, q + 1, end, whole, items[1..])
  {
    ItemsUnfold(whole, items);
    p, e, q := ItemPlace(c, o, items[0], BehindItem(whole, items));
    OthersWritten(c, q, end, whole, items);
  }

  lemma {:induction false} OthersWritten(c: Bytes, q: nat, end: nat, whole: Syntax, items: seq<Item>)
    requires items != [] && Items(whole, items)
    requires TextAt(c, q, BehindItem(whole, items)) && end == q + |BehindItem(whole, items)|
    ensures q < |c|
    ensures if |items| == 1 then c[q] == RBRACKET && end == q + 1
            else c[q] == COMMA && ItemsWritten(c, q + 1, end, whole, items[1..])
  {
    if |items| == 1 {
      assert c[q + 0] == [RBRACKET][0];
    } else {
      BehindComma(c, q, ItemsText(whole, items[1..]) + [RBRACKET]);
    }
  }

  lemma {:induction false} BehindComma(c: Bytes, q: nat, rest: Bytes)
    requires TextAt(c, q, [COMMA] + rest)
    ensures q < |c| && c[q] == COMMA && TextAt(c, q + 1, rest)
  {
    TextInTwo(c, q, [COMMA], rest);
    assert c[q + 0] == [COMMA][0];
  }

  lemma {:induction false} ItemsPlaces(c: Bytes, o: nat, end: nat, whole: Syntax, items: seq<Item>)
    requires ItemsWritten(c, o, end, whole, items)
    ensures ItemsStand(c, o, end, whole, items)
    decreases |items|
  {
    var p, e, q := FirstPlace(c, o, end, whole, items);
    if |items| > 1 { ItemsPlaces(c, q + 1, end, whole, items[1..]); }
    ItemsStandThere(c, o, end, whole, items, p, e, q);
  }

  lemma {:induction false} ItemsStandThere(c: Bytes, o: nat, end: nat, whole: Syntax, items: seq<Item>, p: nat, e: nat,
                                           q: nat)
    requires items != [] && Items(whole, items) && ItemStands(c, o, p, e, q, items[0]) && q < |c|
    requires if |items| == 1 then c[q] == RBRACKET && end == q + 1
             else c[q] == COMMA && ItemsStand(c, q + 1, end, whole, items[1..])
    ensures ItemsStand(c, o, end, whole, items)
  {
    assert ItemsFollow(c, q, end, whole, items);
  }

  lemma AllNestMore(items: seq<Item>, n: int)
    requires items != []
    ensures AllNest(items, n) <==> Nests(items[0].value, n) && AllNest(items[1..], n)
  {
    assert forall i :: 1 <= i < |items| ==> items[i] == items[1..][i - 1];
    assert forall i :: 0 <= i < |items| - 1 ==> items[1..][i] == items[i + 1];
  }

  /** The loop over the elements gives their trees, wherever in the white space before the first it begins. */
  ghost predicate ItemsRead(c: Bytes, o: nat, end: nat, whole: Syntax, items: seq<Item>, depth: nat)
    requires Items(whole, items)
  {
    var p := Skip(c, o);
    && o <= |c| && p < |c| && c[p] != RBRACKET
    && ParseItems(c, o, depth) == Outcome(TreesOf(whole, items), AllNest(items, NESTING_LIMIT - depth), end)
    && ParseItems(c, p, depth) == ParseItems(c, o, depth)
  }

  lemma {:induction false} ReadItems(c: Bytes, o: nat, end: nat, whole: Syntax, items: seq<Item>, depth: nat)
    requires ItemsStand(c, o, end, whole, items) && depth <= NESTING_LIMIT
    ensures ItemsRead(c, o, end, whole, items, depth)
    decreases whole, 1, |items|
  {
    var p: nat, e: nat, q: nat :| ItemStands(c, o, p, e, q, items[0]) && ItemsFollow(c, q, end, whole, items);
    ReadValue(c, p, e, items[0].value, depth);
    FirstStands(c, p, e, items[0].value);
    if |items| == 1 {
      LastItem(c, o, whole, items, depth, p, e, q);
    } else {
      ReadItems(c, q + 1, end, whole, items[1..], depth);
      MoreItems(c, o, end, whole, items, depth, p, e, q);
    }
  }

  /** One turn of the loop, the last one. */
  lemma {:induction false} LastItem(c: Bytes, o: nat, whole: Syntax, items: seq<Item>, depth: nat, p: nat, e: nat,
                                       q: nat)
    requires |items| == 1 && Items(whole, items) && o <= |c| && Between(c, o, p, e, q) && c[q] == RBRACKET
    requires ValueRead(c, p, e, items[0].value, depth) && c[p] != RBRACKET
    ensures ItemsRead(c, o, q + 1, whole, items, depth)
  {
    var x, n := items[0].value, NESTING_LIMIT - depth;
    OnlyItem(whole, items, n);
    LastItemTurn(c, o, depth, p, e, q, TreeOf(x), Nests(x, n));
    LastItemTurn(c, p, depth, p, e, q, TreeOf(x), Nests(x, n));
  }

  lemma {:induction false} OnlyItem(whole: Syntax, items: seq<Item>, n: int)
    requires |items| == 1 && Items(whole, items)
    ensures TreesOf(whole, items) == [TreeOf(items[0].value)]
    ensures AllNest(items, n) <==> Nests(items[0].value, n)
  {
  }

  lemma {:induction false} LastItemTurn(c: Bytes, o: nat, depth: nat, p: nat, e: nat, q: nat, v: Json, nests: bool)
    requires o <= |c| && Skip(c, o) == p <= |c| && ParseValue(c, p, depth) == Outcome(v, nests, e)
    requires Skip(c, e) == q < |c| && c[q] == RBRACKET
    ensures ParseItems(c, o, depth) == Outcome([v], nests, q + 1)
  {
  }

  lemma {:induction false} MoreItems(c: Bytes, o: nat, end: nat, whole: Syntax, items: seq<Item>, depth: nat,
                                     p: nat, e: nat, q: nat)
    requires |items| > 1 && Items(whole, items) && o <= |c| && Between(c, o, p, e, q) && c[q] == COMMA
    requires ValueRead(c, p, e, items[0].value, depth) && c[p] != RBRACKET
    requires ItemsRead(c, q + 1, end, whole, items[1..], depth)
    ensures ItemsRead(c, o, end, whole, items, depth)
  {
    var x, n := items[0].value, NESTING_LIMIT - depth;
    var nests, vs, others := Nests(x, n), TreesOf(whole, items[1..]), AllNest(items[1..], n);
    AllNestMore(items, n);
    ItemsTurn(c, o, depth, p, e, q, TreeOf(x), nests, vs, others, end);
    ItemsTurn(c, p, depth, p, e, q, TreeOf(x), nests, vs, others, end);
  }

  lemma {:induction false} ItemsTurn(c: Bytes, o: nat, depth: nat, p: nat, e: nat, q: nat, v: Json, nests: bool,
                                     vs: seq<Json>, others: bool, end: nat)
    requires o <= |c| && Skip(c, o) == p <= |c| && ParseValue(c, p, depth) == Outcome(v, nests, e)
    requires Skip(c, e) == q < |c| && c[q] == COMMA && ParseItems(c, q + 1, depth) == Outcome(vs, others, end)
    ensures ParseItems(c, o, depth) == Outcome([v] + vs, nests && others, end)
  {
  }

  // ----- objects -----

  ghost predicate BracesRead(c: Bytes, o: nat, e: nat, s: Syntax, depth: nat)
    requires Valid(s) && s.Braces?
  {
    o < |c| && c[o] == LBRACE
    && ParseObject(c, o, depth) == Outcome(MembersOf(s, s.fields), Nests(s, NESTING_LIMIT - depth), e)
  }

  lemma {:induction false} ObjectRead(c: Bytes, o: nat, e: nat, s: Syntax, depth: nat)
    requires Valid(s) && s.Braces? && BracesRead(c, o, e, s, depth)
    ensures ValueRead(c, o, e, s, depth)
  {
    NoWord(c, o);
  }

  lemma {:induction false} ReadObject(c: Bytes, o: nat, e: nat, s: Syntax, depth: nat)
    requires s.Braces? && Stands(c, o, e, s) && depth <= NESTING_LIMIT
    ensures BracesRead(c, o, e, s, depth)
    decreases s, 2, 0
  {
    FirstStands(c, o, e, s);
    if depth == NESTING_LIMIT {
      DeepObject(c, o, e, s);
    } else if s.fields == [] {
      EmptyObject(c, o, e, s, depth);
    } else {
      ReadFilled(c, o, e, s, depth);
    }
  }

  lemma {:induction false} ReadFilled(c: Bytes, o: nat, e: nat, s: Syntax, depth: nat)
    requires s.Braces? && s.fields != [] && Stands(c, o, e, s) && depth < NESTING_LIMIT
    ensures BracesRead(c, o, e, s, depth)
    decreases s, 1, |s.fields| + 1
  {
    BracesStand(c, o, e, s);
    ReadFields(c, o + 1, e, s, s.fields, depth + 1);
    FilledObject(c, o, e, s, depth);
  }

  lemma {:induction false} DeepObject(c: Bytes, o: nat, e: nat, s: Syntax)
    requires Valid(s) && s.Braces? && o < |c| && c[o] == TextOf(s)[0]
    ensures BracesRead(c, o, e, s, NESTING_LIMIT)
  {
  }

  lemma {:induction false} EmptyObject(c: Bytes, o: nat, e: nat, s: Syntax, depth: nat)
    requires s.Braces? && s.fields == [] && Stands(c, o, e, s) && c[o] == LBRACE
    ensures BracesRead(c, o, e, s, depth)
  {
    EmptyInside(c, o, [LBRACE], s.inner, RBRACE);
  }

  lemma {:induction false} BracesStand(c: Bytes, o: nat, e: nat, s: Syntax)
    requires s.Braces? && s.fields != [] && Stands(c, o, e, s)
    ensures c[o] == LBRACE && FieldsStand(c, o + 1, e, s, s.fields)
  {
    Opened(c, o, [LBRACE], FieldsText(s, s.fields) + [RBRACE]);
    FieldsPlaces(c, o + 1, e, s, s.fields);
  }

  lemma {:induction false} FilledObject(c: Bytes, o: nat, e: nat, s: Syntax, depth: nat)
    requires Valid(s) && s.Braces? && s.fields != [] && o < |c| && c[o] == LBRACE && depth < NESTING_LIMIT
    requires FieldsRead(c, o + 1, e, s, s.fields, depth + 1)
    ensures BracesRead(c, o, e, s, depth)
  {
  }

  function FieldLength(f: Field): nat
    requires ValidField(f)
  {
    |f.before| + |LiteralText(f.name)| + |f.middle| + 1 + |f.behind| + |TextOf(f.value)| + |f.after|
  }

  /** Where the parts of a member stand: its name from `n` to `l`, the colon at `k`, its value from `p` to `e`. */
  ghost predicate FieldStands(c: Bytes, o: nat, n: nat, l: nat, k: nat, p: nat, e: nat, q: nat, f: Field) {
    && ValidField(f) && q == o + FieldLength(f)
    && Between(c, o, n, l, k) && TextAt(c, n, LiteralText(f.name)) && l == n + |LiteralText(f.name)| && c[k] == COLON
    && Between(c, k + 1, p, e, q) && Stands(c, p, e, f.value)
  }

  ghost predicate FieldPlaced(c: Bytes, o: nat, e: nat, q: nat, f: Field) {
    exists n: nat, l: nat, k: nat, p: nat :: FieldStands(c, o, n, l, k, p, e, q, f)
  }

  ghost predicate FieldsStand(c: Bytes, o: nat, end: nat, whole: Syntax, fields: seq<Field>)
    decreases |fields|
  {
    fields != [] && Members(whole, fields)
    && exists e: nat, q: nat :: FieldPlaced(c, o, e, q, fields[0]) && FieldsFollow(c, q, end, whole, fields)
  }

  ghost predicate FieldsFollow(c: Bytes, q: nat, end: nat, whole: Syntax, fields: seq<Field>)
    requires fields != []
    decreases |fields|, 0
  {
    q < |c| && if |fields| == 1 then c[q] == RBRACE && end == q + 1
               else c[q] == COMMA && FieldsStand(c, q + 1, end, whole, fields[1..])
  }

  function BehindField(ghost whole: Syntax, fields: seq<Field>): Bytes
    requires fields != [] && Members(whole, fields)
  {
    if |fields| == 1 then [RBRACE] else [COMMA] + (FieldsText(whole, fields[1..]) + [RBRACE])
  }

  /** From the value of a member on. */
  function FromValue(f: Field, rest: Bytes): Bytes
    requires ValidField(f)
  {
    f.behind + (TextOf(f.value) + (f.after + rest))
  }

  lemma {:induction false} FieldUnfold(f: Field, rest: Bytes)
    requires ValidField(f)
    ensures FieldText(f) + rest == f.before + (LiteralText(f.name) + (f.middle + ([COLON] + FromValue(f, rest))))
    ensures |FieldText(f)| == FieldLength(f)
  {
    var v := TextOf(f.value) + f.after;
    var b := [COLON] + (f.behind + v);
    Regroup(TextOf(f.value), f.after, rest);
    Regroup(f.behind, v, rest);
    Regroup([COLON], f.behind + v, rest);
    Regroup(f.middle, b, rest);
    Regroup(LiteralText(f.name), f.middle + b, rest);
    Regroup(f.before, LiteralText(f.name) + (f.middle + b), rest);
  }

  lemma {:induction false} FieldsUnfold(whole: Syntax, fields: seq<Field>)
    requires fields != [] && Members(whole, fields)
    ensures FieldsText(whole, fields) + [RBRACE] == FieldText(fields[0]) + BehindField(whole, fields)
    ensures |FieldsText(whole, fields)| + 1 == FieldLength(fields[0]) + |BehindField(whole, fields)|
    ensures BehindField(whole, fields)[0] == if |fields| == 1 then RBRACE else COMMA
  {
    FieldUnfold(fields[0], []);
    if |fields| == 1 {
      assert FieldsText(whole, fields) == FieldText(fields[0]);
    } else {
      Regroup(FieldText(fields[0]), [COMMA] + FieldsText(whole, fields[1..]), [RBRACE]);
      Regroup([COMMA], FieldsText(whole, fields[1..]), [RBRACE]);
    }
  }

  lemma {:induction false} NameFirst(l: Literal)
    requires IsLiteral(l)
    ensures LiteralText(l) != [] && LiteralText(l)[0] == QUOTE
  {
  }

  lemma {:induction false} FieldPlace(c: Bytes, o: nat, f: Field, rest: Bytes) returns (e: nat, q: nat)
    requires ValidField(f) && rest != [] && rest[0] > 32 && Ends(rest[0]) && TextAt(c, o, FieldText(f) + rest)
    ensures FieldPlaced(c, o, e, q, f) && TextAt(c, q, rest) && c[q] == rest[0] && q == o + FieldLength(f)
  {
    var n, l, k := NamePlace(c, o, f, rest);
    FirstByte(f.value);
    Surrounded(c, k + 1, f.behind, TextOf(f.value), f.after, rest);
    var p := k + 1 + |f.behind|;
    e := p + |TextOf(f.value)|;
    q := e + |f.after|;
    assert FieldStands(c, o, n, l, k, p, e, q, f);
  }

  lemma {:induction false} NamePlace(c: Bytes, o: nat, f: Field, rest: Bytes) returns (n: nat, l: nat, k: nat)
    requires ValidField(f) && TextAt(c, o, FieldText(f) + rest)
    ensures Between(c, o, n, l, k) && TextAt(c, n, LiteralText(f.name)) && l == n + |LiteralText(f.name)|
    ensures c[k] == COLON && TextAt(c, k + 1, FromValue(f, rest))
    ensures k == o + |f.before| + |LiteralText(f.name)| + |f.middle|
  {
    var tail := [COLON] + FromValue(f, rest);
    FieldUnfold(f, rest);
    NameFirst(f.name);
    Surrounded(c, o, f.before, LiteralText(f.name), f.middle, tail);
    n := o + |f.before|;
    l := n + |LiteralText(f.name)|;
    k := l + |f.middle|;
    Opened(c, k, [COLON], FromValue(f, rest));
  }

  ghost predicate FieldsWritten(c: Bytes, o: nat, end: nat, whole: Syntax, fields: seq<Field>) {
    fields != [] && Members(whole, fields)
    && TextAt(c, o, FieldsText(whole, fields) + [RBRACE]) && end == o + |FieldsText(whole, fields)| + 1
  }

  lemma {:induction false} FirstFieldPlace(c: Bytes, o: nat, end: nat, whole: Syntax, fields: seq<Field>)
    returns (e: nat, q: nat)
    requires FieldsWritten(c, o, end, whole, fields)
    ensures FieldPlaced(c, o, e, q, fields[0]) && q < |c|
    ensures if |fields| == 1 then c[q] == RBRACE && end == q + 1
            else c[q] == COMMA && FieldsWritten(c, q + 1, end, whole, fields[1..])
  {
    FieldsUnfold(whole, fields);
    e, q := FieldPlace(c, o, fields[0], BehindField(whole, fields));
    OtherFieldsWritten(c, q, end, whole, fields);
  }

  lemma {:induction false} OtherFieldsWritten(c: Bytes, q: nat, end: nat, whole: Syntax, fields: seq<Field>)
    requires fields != [] && Members(whole, fields)
    requires TextAt(c, q, BehindField(whole, fields)) && end == q + |BehindField(whole, fields)|
    ensures q < |c|
    ensures if |fields| == 1 then c[q] == RBRACE && end == q + 1
            else c[q] == COMMA && FieldsWritten(c, q + 1, end, whole, fields[1..])
  {
    if |fields| == 1 {
      assert c[q + 0] == [RBRACE][0];
    } else {
      BehindComma(c, q, FieldsText(whole, fields[1..]) + [RBRACE]);
    }
  }

  lemma {:induction false} FieldsPlaces(c: Bytes, o: nat, end: nat, whole: Syntax, fields: seq<Field>)
    requires FieldsWritten(c, o, end, whole, fields)
    ensures FieldsStand(c, o, end, whole, fields)
    decreases |fields|
  {
    var e, q := FirstFieldPlace(c, o, end, whole, fields);
    if |fields| > 1 { FieldsPlaces(c, q + 1, end, whole, fields[1..]); }
    FieldsStandThere(c, o, end, whole, fields, e, q);
  }

  lemma {:induction false} FieldsStandThere(c: Bytes, o: nat, end: nat, whole: Syntax, fields: seq<Field>, e: nat,
                                            q: nat)
    requires fields != [] && Members(whole, fields) && FieldPlaced(c, o, e, q, fields[0]) && q < |c|
    requires if |fields| == 1 then c[q] == RBRACE && end == q + 1
             else c[q] == COMMA && FieldsStand(c, q + 1, end, whole, fields[1..])
    ensures FieldsStand(c, o, end, whole, fields)
  {
    assert FieldsFollow(c, q, end, whole, fields);
  }

  lemma FieldsNestMore(fields: seq<Field>, n: int)
    requires fields != []
    ensures FieldsNest(fields, n) <==> Nests(fields[0].value, n) && FieldsNest(fields[1..], n)
  {
    assert forall i :: 1 <= i < |fields| ==> fields[i] == fields[1..][i - 1];
    assert forall i :: 0 <= i < |fields| - 1 ==> fields[1..][i] == fields[i + 1];
  }

  function MemberOf(f: Field): Member
    requires ValidField(f)
  {
    Member(StringOf(f.name), TreeOf(f.value))
  }

  /** A member is read, wherever in the white space before it parsing begins. */
  ghost predicate FieldRead(c: Bytes, o: nat, e: nat, f: Field, depth: nat) {
    var n := Skip(c, o);
    && ValidField(f) && o <= |c| && n < |c| && c[n] == QUOTE
    && ParseMember(c, o, depth) == Outcome(MemberOf(f), Nests(f.value, NESTING_LIMIT - depth), e)
    && ParseMember(c, n, depth) == ParseMember(c, o, depth)
  }

  lemma {:induction false} ReadField(c: Bytes, o: nat, e: nat, q: nat, f: Field, depth: nat)
    requires depth <= NESTING_LIMIT && FieldPlaced(c, o, e, q, f)
    ensures FieldRead(c, o, e, f, depth) && Skip(c, e) == q < |c|
    decreases f.value, 4, 0
  {
    var n: nat, l: nat, k: nat, p: nat :| FieldStands(c, o, n, l, k, p, e, q, f);
    LiteralRead(c, n, f.name);
    NameFirst(f.name);
    assert c[n + 0] == LiteralText(f.name)[0];
    ReadValue(c, p, e, f.value, depth);
    MemberTurn(c, o, depth, n, l, k, p, e, q, f);
  }

  lemma {:induction false} MemberTurn(c: Bytes, o: nat, depth: nat, n: nat, l: nat, k: nat, p: nat, e: nat, q: nat,
                                      f: Field)
    requires ValidField(f) && o <= |c| && Between(c, o, n, l, k) && c[n] == QUOTE && c[k] == COLON
    requires ParseString(c, n) == Some((StringOf(f.name), l))
    requires Between(c, k + 1, p, e, q) && ValueRead(c, p, e, f.value, depth)
    ensures FieldRead(c, o, e, f, depth)
  {
  }

  ghost predicate FieldsRead(c: Bytes, o: nat, end: nat, whole: Syntax, fields: seq<Field>, depth: nat)
    requires Members(whole, fields)
  {
    var n := Skip(c, o);
    && o <= |c| && n < |c| && c[n] != RBRACE
    && ParseMembers(c, o, depth) == Outcome(MembersOf(whole, fields), FieldsNest(fields, NESTING_LIMIT - depth), end)
    && ParseMembers(c, n, depth) == ParseMembers(c, o, depth)
  }

  lemma {:induction false} FirstOfFields(c: Bytes, o: nat, end: nat, whole: Syntax, fields: seq<Field>)
    returns (e: nat, q: nat)
    requires FieldsStand(c, o, end, whole, fields)
    ensures FieldPlaced(c, o, e, q, fields[0]) && Members(whole, fields) && q < |c|
    ensures if |fields| == 1 then c[q] == RBRACE && end == q + 1
            else c[q] == COMMA && FieldsStand(c, q + 1, end, whole, fields[1..])
  {
    e, q :| FieldPlaced(c, o, e, q, fields[0]) && FieldsFollow(c, q, end, whole, fields);
  }

  lemma {:induction false} ReadFields(c: Bytes, o: nat, end: nat, whole: Syntax, fields: seq<Field>, depth: nat)
    requires FieldsStand(c, o, end, whole, fields) && depth <= NESTING_LIMIT
    ensures FieldsRead(c, o, end, whole, fields, depth)
    decreases whole, 1, |fields|
  {
    var e, q := FirstOfFields(c, o, end, whole, fields);
    ReadField(c, o, e, q, fields[0], depth);
    ReadBehind(c, o, end, whole, fields, depth, e, q);
  }

  /** Behind the first member: the brace, or a comma and the others. */
  lemma {:induction false} ReadBehind(c: Bytes, o: nat, end: nat, whole: Syntax, fields: seq<Field>, depth: nat,
                                      e: nat, q: nat)
    requires fields != [] && Members(whole, fields) && depth <= NESTING_LIMIT
    requires FieldRead(c, o, e, fields[0], depth) && Skip(c, e) == q < |c|
    requires if |fields| == 1 then c[q] == RBRACE && end == q + 1
             else c[q] == COMMA && FieldsStand(c, q + 1, end, whole, fields[1..])
    ensures FieldsRead(c, o, end, whole, fields, depth)
    decreases whole, 1, |fields|, 1
  {
    if |fields| == 1 {
      LastField(c, o, whole, fields, depth, e, q);
    } else {
      ReadOthers(c, o, end, whole, fields, depth, e, q);
    }
  }

  lemma {:induction false} ReadOthers(c: Bytes, o: nat, end: nat, whole: Syntax, fields: seq<Field>, depth: nat,
                                      e: nat, q: nat)
    requires |fields| > 1 && Members(whole, fields) && depth <= NESTING_LIMIT
    requires FieldRead(c, o, e, fields[0], depth) && Skip(c, e) == q < |c| && c[q] == COMMA
    requires FieldsStand(c, q + 1, end, whole, fields[1..])
    ensures FieldsRead(c, o, end, whole, fields, depth)
    decreases whole, 1, |fields|, 0
  {
    ReadFields(c, q + 1, end, whole, fields[1..], depth);
    MoreFields(c, o, end, whole, fields, depth, e, q);
  }

  lemma {:induction false} LastField(c: Bytes, o: nat, whole: Syntax, fields: seq<Field>, depth: nat, e: nat, q: nat)
    requires |fields| == 1 && Members(whole, fields) && FieldRead(c, o, e, fields[0], depth)
    requires Skip(c, e) == q < |c| && c[q] == RBRACE
    ensures FieldsRead(c, o, q + 1, whole, fields, depth)
  {
    var f, n := fields[0], NESTING_LIMIT - depth;
    OnlyField(whole, fields, n);
    LastTurn(c, o, depth, e, q, MemberOf(f), Nests(f.value, n));
    LastTurn(c, Skip(c, o), depth, e, q, MemberOf(f), Nests(f.value, n));
  }

  lemma {:induction false} OnlyField(whole: Syntax, fields: seq<Field>, n: int)
    requires |fields| == 1 && Members(whole, fields)
    ensures MembersOf(whole, fields) == [MemberOf(fields[0])]
    ensures FieldsNest(fields, n) <==> Nests(fields[0].value, n)
  {
  }

  lemma {:induction false} LastTurn(c: Bytes, o: nat, depth: nat, e: nat, q: nat, m: Member, nests: bool)
    requires o <= |c| && Skip(c, e) == q < |c| && c[q] == RBRACE && ParseMember(c, o, depth) == Outcome(m, nests, e)
    ensures ParseMembers(c, o, depth) == Outcome([m], nests, q + 1)
  {
  }

  lemma {:induction false} MoreFields(c: Bytes, o: nat, end: nat, whole: Syntax, fields: seq<Field>, depth: nat,
                                      e: nat, q: nat)
    requires |fields| > 1 && Members(whole, fields) && FieldRead(c, o, e, fields[0], depth)
    requires Skip(c, e) == q < |c| && c[q] == COMMA && FieldsRead(c, q + 1, end, whole, fields[1..], depth)
    ensures FieldsRead(c, o, end, whole, fields, depth)
  {
    var f, n := fields[0], NESTING_LIMIT - depth;
    var nests, ms, others := Nests(f.value, n), MembersOf(whole, fields[1..]), FieldsNest(fields[1..], n);
    FieldsNestMore(fields, n);
    MembersTurn(c, o, depth, e, q, MemberOf(f), nests, ms, others, end);
    MembersTurn(c, Skip(c, o), depth, e, q, MemberOf(f), nests, ms, others, end);
  }

  lemma {:induction false} MembersTurn(c: Bytes, o: nat, depth: nat, e: nat, q: nat, m: Member, nests: bool,
                                       ms: seq<Member>, others: bool, end: nat)
    requires o <= |c| && Skip(c, e) == q < |c| && c[q] == COMMA && ParseMember(c, o, depth) == Outcome(m, nests, e)
    requires ParseMembers(c, q + 1, depth) == Outcome(ms, others, end)
    ensures ParseMembers(c, o, depth) == Outcome([m] + ms, nests && others, end)
  {
  }

  // ----- whole texts -----

  /** The byte order mark of UTF-8. */
  const MARK: Bytes := [0xEF, 0xBB, 0xBF]

  lemma {:induction false} SkipFromAll(c: Bytes, o: nat)
    requires o <= |c|
    ensures SkipFrom(c, o) == |c| <==> forall i :: o <= i < |c| ==> c[i] <= 32
    decreases |c| - o
  {
    if o < |c| && c[o] <= 32 { SkipFromAll(c, o + 1); }
  }

  /** What may stand behind a text that has to end with a terminator: white space, of which zeros are, and a zero. */
  predicate Terminated(rest: Bytes) {
    rest != [] && White(rest) && rest[|rest| - 1] == 0
  }

  lemma {:induction false} EndTested(c: Bytes, e: nat, rest: Bytes)
    requires TextAt(c, e, rest) && e + |rest| == |c|
    ensures Terminated(rest) <==> Skip(c, e) < |c| && ByteAt(c, Skip(c, e)) == 0
  {
    SkipFromAll(c, e);
    if rest != [] { assert c[e + (|rest| - 1)] == rest[|rest| - 1]; }
    if White(rest) {
      forall i | e <= i < |c| ensures c[i] <= 32 { assert rest[i - e] == c[e + (i - e)]; }
    } else {
      var i :| 0 <= i < |rest| && rest[i] > 32;
      assert c[e + i] == rest[i];
    }
  }

  /** A mark is seen only where it stands, and passed over if there are two bytes or more behind it. */
  lemma {:induction false} StartFound(c: Bytes, mark: Bytes, more: Bytes)
    requires c == mark + more && more != [] && more[0] < 128
    requires mark == [] || (mark == MARK && |c| > 4)
    ensures DocumentStart(c) == |mark|
  {
    if mark == MARK { assert c[0] == MARK[0] && c[1] == MARK[1] && c[2] == MARK[2]; } else { assert c == more; }
  }

  lemma {:induction false} DocumentIs(c: Bytes, p: nat, e: nat, s: Syntax, requireTerminator: bool, ends: bool)
    requires Valid(s) && Skip(c, DocumentStart(c)) == p < |c| && ValueRead(c, p, e, s, 0)
    requires ends <==> Skip(c, e) < |c| && ByteAt(c, Skip(c, e)) == 0
    ensures ParseDocument(c, requireTerminator)
         == if Nests(s, NESTING_LIMIT) && (requireTerminator ==> ends) then Some(TreeOf(s)) else None
  {
  }

  lemma {:induction false} ValuePlace(c: Bytes, o: nat, w: Bytes, s: Syntax, rest: Bytes)
    requires Valid(s) && White(w) && (s.Numeric? && rest != [] ==> Ends(rest[0]))
    requires TextAt(c, o, w + (TextOf(s) + rest)) && o + |w| + |TextOf(s)| + |rest| == |c|
    ensures var p := o + |w|; var e := p + |TextOf(s)|;
      Skip(c, o) == p < |c| && Stands(c, p, e, s) && TextAt(c, e, rest)
  {
    var p, e := o + |w|, o + |w| + |TextOf(s)|;
    TextInTwo(c, o, w, TextOf(s) + rest);
    TextInTwo(c, p, TextOf(s), rest);
    FirstByte(s);
    assert c[p + 0] == TextOf(s)[0];
    SkipOver(c, o, w);
    if rest != [] { assert c[e + 0] == rest[0]; }
  }

  lemma {:induction false} TextBehindMark(mark: Bytes, w: Bytes, s: Syntax, rest: Bytes)
    requires Valid(s) && White(w)
    ensures var more := w + (TextOf(s) + rest); var c := mark + more;
      more != [] && more[0] < 128 && TextAt(c, |mark|, more) && |c| == |mark| + |w| + |TextOf(s)| + |rest|
  {
    FirstByte(s);
  }

  lemma {:induction false} DocumentAt(c: Bytes, o: nat, w: Bytes, s: Syntax, rest: Bytes, requireTerminator: bool)
    requires Valid(s) && White(w) && (s.Numeric? && rest != [] ==> Ends(rest[0])) && DocumentStart(c) == o
    requires TextAt(c, o, w + (TextOf(s) + rest)) && o + |w| + |TextOf(s)| + |rest| == |c|
    ensures ParseDocument(c, requireTerminator)
         == if Nests(s, NESTING_LIMIT) && (requireTerminator ==> Terminated(rest)) then Some(TreeOf(s)) else None
  {
    var p := o + |w|;
    var e := p + |TextOf(s)|;
    ValuePlace(c, o, w, s, rest);
    ReadValue(c, p, e, s, 0);
    EndTested(c, e, rest);
    DocumentIs(c, p, e, s, requireTerminator, Terminated(rest));
  }

  /**
   * The parser's entry point on every JSON text, with a byte order mark or none, white space in front, and
   * anything behind, unless it continues a number: it gives the tree the text stands for if and only if that
   * nests at most 1000 deep and, where a terminator is asked for, only white space and a last zero follow.
   */
  lemma {:induction false} DocumentRead(mark: Bytes, w: Bytes, s: Syntax, rest: Bytes, requireTerminator: bool)
    requires Valid(s) && White(w) && (s.Numeric? && rest != [] ==> Ends(rest[0]))
    requires mark == [] || (mark == MARK && |w| + |TextOf(s)| + |rest| > 1)
    ensures ParseDocument(mark + (w + (TextOf(s) + rest)), requireTerminator)
         == if Nests(s, 1000) && (requireTerminator ==> Terminated(rest)) then Some(TreeOf(s)) else None
  {
    var more := w + (TextOf(s) + rest);
    TextBehindMark(mark, w, s, rest);
    StartFound(mark + more, mark, more);
    DocumentAt(mark + more, |mark|, w, s, rest, requireTerminator);
  }

  /** Behind a byte order mark there have to be two bytes: with one or none the mark is taken for text and refused. */
  lemma ShortMark(c: Bytes, requireTerminator: bool)
    requires TextAt(c, 0, MARK) && |c| <= 4
    ensures ParseDocument(c, requireTerminator).None?
  {
    assert c[0 + 0] == MARK[0];
    SkipVisible(c, 0);
    NoWord(c, 0);
  }
}
