// Nothing but JSON texts is accepted: where the parser gives a tree, a text stands that stands for that tree.
module JsonAccepted {
  import opened Wrappers
  import opened Sequences
  import opened JsonTree
  import opened Octets
  import opened JsonText
  import opened Strtod
  import opened JsonGrammar
  import opened JsonEscapes
  import opened JsonSyntax

  // ----- white space -----

  lemma {:induction false} SkipFromWhite(c: Bytes, o: nat)
    requires o <= |c|
    ensures forall i :: o <= i < SkipFrom(c, o) ==> c[i] <= 32
    decreases |c| - o
  {
    if o < |c| && c[o] <= 32 { SkipFromWhite(c, o + 1); }
  }

  lemma {:induction false} SkipReaches(c: Bytes, o: nat)
    requires o < |c| && c[Skip(c, o)] > 32
    ensures Skip(c, o) == SkipFrom(c, o)
  {
    SkipFromWhite(c, o);
  }

  /** What is skipped in front of a visible byte is white space. */
  lemma {:induction false} Skipped(c: Bytes, o: nat) returns (w: Bytes)
    requires o < |c| && c[Skip(c, o)] > 32
    ensures White(w) && TextAt(c, o, w) && Skip(c, o) == o + |w|
  {
    SkipFromWhite(c, o);
    SkipReaches(c, o);
    w := Part(c, o, Skip(c, o) - o);
  }

  // ----- numbers -----

  lemma {:induction false} NumeralAccepted(c: Bytes, o: nat) returns (t: Bytes)
    requires o < |c| && (c[o] == HYPHEN || IsDigit(c[o])) && ParseNumber(c, o).Some?
    ensures IsNumeral(t) && TextAt(c, o, t) && ParseNumber(c, o) == Some((TreeOf(Numeric(t)), o + |t|))
  {
    var text := NumberText(c, o);
    t := Part(text, 0, NumberEnd(text));
    TakenPart(text, t);
    assert t[0] == text[0 + 0] == c[o + 0];
  }

  // ----- values -----

  /** The text of `s` stands from `o` to `e`. */
  ghost predicate TextThere(c: Bytes, o: nat, e: nat, s: Syntax) {
    Valid(s) && TextAt(c, o, TextOf(s)) && e == o + |TextOf(s)|
  }

  lemma {:induction false} FirstVisible(c: Bytes, o: nat, e: nat, s: Syntax)
    requires TextThere(c, o, e, s)
    ensures o < |c| && c[o] > 32
  {
    FirstByte(s);
    assert c[o + 0] == TextOf(s)[0];
  }

  lemma {:induction false} ValueAccepted(c: Bytes, o: nat, depth: nat) returns (s: Syntax)
    requires o <= |c| && ParseValue(c, o, depth).Some?
    ensures TextThere(c, o, ParseValue(c, o, depth).value.1, s) && o < |c| && c[o] > 32
    decreases |c| - o, 1
  {
    if TextAt(c, o, NULL_TEXT) || TextAt(c, o, FALSE_TEXT) || TextAt(c, o, TRUE_TEXT) {
      s := Word(if TextAt(c, o, NULL_TEXT) then Null else if TextAt(c, o, FALSE_TEXT) then False else True);
    } else if c[o] == QUOTE {
      var l := LiteralAccepted(c, o);
      s := Quoted(l);
    } else if c[o] == HYPHEN || IsDigit(c[o]) {
      var t := NumeralAccepted(c, o);
      s := Numeric(t);
    } else if c[o] == LBRACKET {
      s := ArrayAccepted(c, o, depth);
    } else {
      s := ObjectAccepted(c, o, depth);
    }
    FirstVisible(c, o, ParseValue(c, o, depth).value.1, s);
  }

  /** Two brackets or braces, and white space between them. */
  lemma {:induction false} EmptyThere(c: Bytes, o: nat, open: Byte, w: Bytes, close: Byte)
    requires o < |c| && c[o] == open && TextAt(c, o + 1, w) && o + 1 + |w| < |c| && c[o + 1 + |w|] == close
    ensures TextAt(c, o, [open] + (w + [close]))
  {
    TextJoined(c, o + 1, w, [close]);
    TextJoined(c, o, [open], w + [close]);
  }

  lemma SkipTwice(c: Bytes, o: nat)
    requires o < |c|
    ensures Skip(c, Skip(c, o)) == Skip(c, o)
  {
  }

  // ----- arrays -----

  lemma {:induction false} ArrayAccepted(c: Bytes, o: nat, depth: nat) returns (s: Syntax)
    requires o < |c| && c[o] == LBRACKET && ParseArray(c, o, depth).Some?
    ensures TextThere(c, o, ParseArray(c, o, depth).value.1, s)
    decreases |c| - o, 0
  {
    var first := Skip(c, o + 1);
    if c[first] == RBRACKET {
      var w := Skipped(c, o + 1);
      s := Brackets(w, []);
      EmptyThere(c, o, LBRACKET, w, RBRACKET);
    } else {
      SkipTwice(c, o + 1);
      var items := ItemsAccepted(c, o + 1, depth + 1);
      s := Brackets([], items);
      ItemsEnclosed(c, o, ParseArray(c, o, depth).value.1, items);
    }
  }

  lemma {:induction false} ItemsEnclosed(c: Bytes, o: nat, end: nat, items: seq<Item>)
    requires o < |c| && c[o] == LBRACKET && ItemsWritten(c, o + 1, end, Brackets([], items), items)
    ensures TextThere(c, o, end, Brackets([], items))
  {
    var s := Brackets([], items);
    TextJoined(c, o, [LBRACKET], ItemsText(s, items) + [RBRACKET]);
  }

  /** The text of elements does not depend on the array they are part of. */
  lemma {:induction false} SameItems(a: Syntax, b: Syntax, items: seq<Item>)
    requires items != [] && Items(a, items) && Items(b, items)
    ensures ItemsText(a, items) == ItemsText(b, items)
    decreases |items|
  {
    if |items| > 1 { SameItems(a, b, items[1..]); }
  }

  lemma {:induction false} ItemsAccepted(c: Bytes, o: nat, depth: nat) returns (items: seq<Item>)
    requires o <= |c| && ParseItems(c, o, depth).Some?
    ensures ItemsWritten(c, o, ParseItems(c, o, depth).value.1, Brackets([], items), items)
    decreases |c| - o, 2
  {
    var p := Skip(c, o);
    var v := ParseValue(c, p, depth).value;
    var s := ValueAccepted(c, p, depth);
    var before := Skipped(c, o);
    var q := Skip(c, v.1);
    var after := Skipped(c, v.1);
    var x := Item(before, s, after);
    if c[q] == COMMA {
      var others := ItemsAccepted(c, q + 1, depth);
      items := MoreWritten(c, o, q, ParseItems(c, o, depth).value.1, x, others);
    } else {
      items := LastWritten(c, o, q, x);
    }
  }

  /** The parts of an element stand one behind the other, from `o` to `q`. */
  ghost predicate PartsThere(c: Bytes, o: nat, q: nat, x: Item) {
    && White(x.before) && White(x.after) && q >= |x.after| && TextAt(c, o, x.before)
    && TextThere(c, o + |x.before|, q - |x.after|, x.value) && TextAt(c, q - |x.after|, x.after)
  }

  lemma {:induction false} PartsJoined(c: Bytes, o: nat, q: nat, x: Item, rest: Bytes)
    requires PartsThere(c, o, q, x) && TextAt(c, q, rest)
    ensures TextAt(c, o, x.before + (TextOf(x.value) + (x.after + rest))) && q == o + ItemLength(x)
  {
    TextJoined(c, q - |x.after|, x.after, rest);
    TextJoined(c, o + |x.before|, TextOf(x.value), x.after + rest);
    TextJoined(c, o, x.before, TextOf(x.value) + (x.after + rest));
  }

  lemma {:induction false} ItemsJoined(c: Bytes, o: nat, q: nat, whole: Syntax, items: seq<Item>)
    requires items != [] && Items(whole, items) && PartsThere(c, o, q, items[0])
    requires TextAt(c, q, BehindItem(whole, items))
    ensures ItemsWritten(c, o, q + |BehindItem(whole, items)|, whole, items)
  {
    ItemsUnfold(whole, items);
    PartsJoined(c, o, q, items[0], BehindItem(whole, items));
  }

  lemma {:induction false} LastWritten(c: Bytes, o: nat, q: nat, x: Item) returns (items: seq<Item>)
    requires PartsThere(c, o, q, x) && q < |c| && c[q] == RBRACKET
    ensures ItemsWritten(c, o, q + 1, Brackets([], items), items)
  {
    items := [x];
    ItemsJoined(c, o, q, Brackets([], items), items);
  }

  lemma ElementOf(x: Item, others: seq<Item>)
    requires White(x.before) && White(x.after) && Valid(x.value) && Items(Brackets([], others), others)
    ensures var whole := Brackets([], [x] + others); Items(whole, [x] + others) && Items(whole, others)
  {
    var items := [x] + others;
    forall i | 0 <= i < |others| ensures items[i + 1] == others[i] {}
    assert items[0] == x;
  }

  lemma {:induction false} MoreWritten(c: Bytes, o: nat, q: nat, end: nat, x: Item, others: seq<Item>)
    returns (items: seq<Item>)
    requires PartsThere(c, o, q, x) && q < |c| && c[q] == COMMA
    requires ItemsWritten(c, q + 1, end, Brackets([], others), others)
    ensures ItemsWritten(c, o, end, Brackets([], items), items)
  {
    items := [x] + others;
    var whole := Brackets([], items);
    ElementOf(x, others);
    SameItems(Brackets([], others), whole, others);
    assert items[1..] == others;
    TextJoined(c, q, [COMMA], ItemsText(whole, others) + [RBRACKET]);
    ItemsJoined(c, o, q, whole, items);
  }

  // ----- objects -----

  lemma {:induction false} ObjectAccepted(c: Bytes, o: nat, depth: nat) returns (s: Syntax)
    requires o < |c| && c[o] == LBRACE && ParseObject(c, o, depth).Some?
    ensures TextThere(c, o, ParseObject(c, o, depth).value.1, s)
    decreases |c| - o, 0
  {
    var first := Skip(c, o + 1);
    if c[first] == RBRACE {
      var w := Skipped(c, o + 1);
      s := Braces(w, []);
      EmptyThere(c, o, LBRACE, w, RBRACE);
    } else {
      SameMembers(c, o + 1, depth + 1);
      var fields := FieldsAccepted(c, o + 1, depth + 1);
      s := Braces([], fields);
      FieldsEnclosed(c, o, ParseObject(c, o, depth).value.1, fields);
    }
  }

  lemma SameMember(c: Bytes, o: nat, depth: nat)
    requires o < |c|
    ensures ParseMember(c, Skip(c, o), depth) == ParseMember(c, o, depth)
  {
    SkipTwice(c, o);
  }

  /** How the loop over the members goes on behind a member. */
  function GoOn(c: Bytes, m: Option<(Member, nat)>, depth: nat): Option<(seq<Member>, nat)>
    requires m.Some? ==> m.value.1 <= |c|
  {
    if m.None? then None
    else
      var after := Skip(c, m.value.1);
      if after < |c| && c[after] == COMMA then
        var rest := ParseMembers(c, after + 1, depth);
        if rest.None? then None else Some(([m.value.0] + rest.value.0, rest.value.1))
      else if after < |c| && c[after] == RBRACE then Some(([m.value.0], after + 1))
      else None
  }

  lemma {:induction false} GoesOn(c: Bytes, o: nat, depth: nat)
    requires o <= |c|
    ensures ParseMembers(c, o, depth) == GoOn(c, ParseMember(c, o, depth), depth)
  {
  }

  /** The loop over the members gives the same, wherever in the white space before the first it begins. */
  lemma {:induction false} SameMembers(c: Bytes, o: nat, depth: nat)
    requires o < |c|
    ensures ParseMembers(c, Skip(c, o), depth) == ParseMembers(c, o, depth)
  {
    SameMember(c, o, depth);
    GoesOn(c, o, depth);
    GoesOn(c, Skip(c, o), depth);
  }

  lemma {:induction false} FieldsEnclosed(c: Bytes, o: nat, end: nat, fields: seq<Field>)
    requires o < |c| && c[o] == LBRACE && FieldsWritten(c, o + 1, end, Braces([], fields), fields)
    ensures TextThere(c, o, end, Braces([], fields))
  {
    var s := Braces([], fields);
    TextJoined(c, o, [LBRACE], FieldsText(s, fields) + [RBRACE]);
  }

  lemma {:induction false} SameFields(a: Syntax, b: Syntax, fields: seq<Field>)
    requires fields != [] && Members(a, fields) && Members(b, fields)
    ensures FieldsText(a, fields) == FieldsText(b, fields)
    decreases |fields|
  {
    if |fields| > 1 { SameFields(a, b, fields[1..]); }
  }

  /** A member stands from `o` to `q`. */
  ghost predicate FieldThere(c: Bytes, o: nat, q: nat, f: Field) {
    ValidField(f) && TextAt(c, o, FieldText(f)) && q == o + |FieldText(f)|
  }

  /** Where parse_object finds the parts of a member: its name at `n`, the colon at `k`, its value at `p`. */
  ghost predicate MemberFound(c: Bytes, o: nat, depth: nat, n: nat, l: nat, k: nat, p: nat, e: nat, q: nat) {
    && o <= |c| && Skip(c, o) == n && ParseString(c, n).Some? && ParseString(c, n).value.1 == l
    && Skip(c, l) == k < |c| && c[k] == COLON && Skip(c, k + 1) == p <= |c|
    && ParseValue(c, p, depth).Some? && ParseValue(c, p, depth).value.1 == e && Skip(c, e) == q < |c| && c[q] > 32
  }

  lemma {:induction false} FindMember(c: Bytes, o: nat, depth: nat)
    returns (n: nat, l: nat, k: nat, p: nat, e: nat, q: nat)
    requires o <= |c| && ParseMember(c, o, depth).Some?
    requires var q := Skip(c, ParseMember(c, o, depth).value.1); q < |c| && c[q] > 32
    ensures MemberFound(c, o, depth, n, l, k, p, e, q) && q == Skip(c, ParseMember(c, o, depth).value.1)
  {
    n := Skip(c, o);
    l := ParseString(c, n).value.1;
    k := Skip(c, l);
    p := Skip(c, k + 1);
    e := ParseValue(c, p, depth).value.1;
    q := Skip(c, e);
  }

  lemma {:induction false} FieldAccepted(c: Bytes, o: nat, depth: nat, n: nat, l: nat, k: nat, p: nat, e: nat, q: nat)
    returns (f: Field)
    requires MemberFound(c, o, depth, n, l, k, p, e, q)
    ensures FieldThere(c, o, q, f)
    decreases |c| - o, 3
  {
    var name := LiteralAccepted(c, n);
    PositionsOrdered(c, o, depth, n, l, k, p, e, q);
    var s := ValueAccepted(c, p, depth);
    var before := Skipped(c, o);
    var middle := Skipped(c, l);
    var behind := Skipped(c, k + 1);
    var after := Skipped(c, e);
    f := Field(before, name, middle, behind, s, after);
    FieldJoined(c, o, k, q, f);
  }

  lemma PositionsOrdered(c: Bytes, o: nat, depth: nat, n: nat, l: nat, k: nat, p: nat, e: nat, q: nat)
    requires MemberFound(c, o, depth, n, l, k, p, e, q)
    ensures o <= n < |c| && c[n] == QUOTE && n < l <= k < p && l < |c| && k + 1 <= |c| && e <= q
  {
  }

  /** What the loop over the members read: a member up to `q`, and behind it the brace or a comma and the others. */
  lemma {:induction false} FindMembers(c: Bytes, o: nat, depth: nat)
    returns (n: nat, l: nat, k: nat, p: nat, e: nat, q: nat)
    requires o <= |c| && ParseMembers(c, o, depth).Some?
    ensures MemberFound(c, o, depth, n, l, k, p, e, q) && o < q && (c[q] == COMMA || c[q] == RBRACE)
    ensures MembersBehind(c, q, ParseMembers(c, o, depth).value.1, depth)
  {
    n, l, k, p, e, q := FindMember(c, o, depth);
  }

  ghost predicate MembersBehind(c: Bytes, q: nat, end: nat, depth: nat) {
    q < |c| && if c[q] != COMMA then end == q + 1
               else ParseMembers(c, q + 1, depth).Some? && ParseMembers(c, q + 1, depth).value.1 == end
  }

  lemma {:induction false} FieldsAccepted(c: Bytes, o: nat, depth: nat) returns (fields: seq<Field>)
    requires o <= |c| && ParseMembers(c, o, depth).Some?
    ensures FieldsWritten(c, o, ParseMembers(c, o, depth).value.1, Braces([], fields), fields)
    decreases |c| - o, 5
  {
    var n, l, k, p, e, q := FindMembers(c, o, depth);
    fields := FieldsFound(c, o, ParseMembers(c, o, depth).value.1, depth, n, l, k, p, e, q);
  }

  lemma {:induction false} FieldsFound(c: Bytes, o: nat, end: nat, depth: nat, n: nat, l: nat, k: nat, p: nat, e: nat,
                                       q: nat) returns (fields: seq<Field>)
    requires MemberFound(c, o, depth, n, l, k, p, e, q) && o < q && (c[q] == COMMA || c[q] == RBRACE)
    requires MembersBehind(c, q, end, depth)
    ensures FieldsWritten(c, o, end, Braces([], fields), fields)
    decreases |c| - o, 4
  {
    var f := FieldAccepted(c, o, depth, n, l, k, p, e, q);
    if c[q] == COMMA {
      var others := FieldsAccepted(c, q + 1, depth);
      fields := MoreFieldsWritten(c, o, q, end, f, others);
    } else {
      fields := LastFieldWritten(c, o, q, f);
    }
  }

  lemma {:induction false} FieldJoined(c: Bytes, o: nat, k: nat, q: nat, f: Field)
    requires ValidField(f) && TextAt(c, o, f.before) && TextAt(c, o + |f.before|, LiteralText(f.name))
    requires TextAt(c, o + |f.before| + |LiteralText(f.name)|, f.middle) && k < |c| && c[k] == COLON
    requires k == o + |f.before| + |LiteralText(f.name)| + |f.middle|
    requires PartsThere(c, k + 1, q, Item(f.behind, f.value, f.after))
    ensures FieldThere(c, o, q, f)
  {
    var x := Item(f.behind, f.value, f.after);
    PartsJoined(c, k + 1, q, x, []);
    AppendNothing(f.after);
    var value := f.behind + (TextOf(f.value) + f.after);
    TextJoined(c, k, [COLON], value);
    TextJoined(c, k - |f.middle|, f.middle, [COLON] + value);
    TextJoined(c, o + |f.before|, LiteralText(f.name), f.middle + ([COLON] + value));
    TextJoined(c, o, f.before, LiteralText(f.name) + (f.middle + ([COLON] + value)));
  }

  lemma {:induction false} FieldsJoined(c: Bytes, o: nat, q: nat, whole: Syntax, fields: seq<Field>)
    requires fields != [] && Members(whole, fields) && FieldThere(c, o, q, fields[0])
    requires TextAt(c, q, BehindField(whole, fields))
    ensures FieldsWritten(c, o, q + |BehindField(whole, fields)|, whole, fields)
  {
    FieldsUnfold(whole, fields);
    FieldUnfold(fields[0], []);
    TextJoined(c, o, FieldText(fields[0]), BehindField(whole, fields));
  }

  lemma {:induction false} LastFieldWritten(c: Bytes, o: nat, q: nat, f: Field) returns (fields: seq<Field>)
    requires FieldThere(c, o, q, f) && q < |c| && c[q] == RBRACE
    ensures FieldsWritten(c, o, q + 1, Braces([], fields), fields)
  {
    fields := [f];
    FieldsJoined(c, o, q, Braces([], fields), fields);
  }

  lemma MemberOfBoth(f: Field, others: seq<Field>)
    requires ValidField(f) && Members(Braces([], others), others)
    ensures var whole := Braces([], [f] + others); Members(whole, [f] + others) && Members(whole, others)
  {
    var fields := [f] + others;
    forall i | 0 <= i < |others| ensures fields[i + 1] == others[i] {}
    assert fields[0] == f;
  }

  lemma {:induction false} MoreFieldsWritten(c: Bytes, o: nat, q: nat, end: nat, f: Field, others: seq<Field>)
    returns (fields: seq<Field>)
    requires FieldThere(c, o, q, f) && q < |c| && c[q] == COMMA
    requires FieldsWritten(c, q + 1, end, Braces([], others), others)
    ensures FieldsWritten(c, o, end, Braces([], fields), fields)
  {
    fields := [f] + others;
    var whole := Braces([], fields);
    MemberOfBoth(f, others);
    SameFields(Braces([], others), whole, others);
    assert fields[1..] == others;
    TextJoined(c, q, [COMMA], FieldsText(whole, others) + [RBRACE]);
    FieldsJoined(c, o, q, whole, fields);
  }

  // ----- whole texts -----

  /** A tree is what some text at `o` stands for, one that nests at most 1000 deep. */
  ghost predicate IsRead(c: Bytes, o: nat, t: Json, s: Syntax) {
    Valid(s) && TextAt(c, o, TextOf(s)) && TreeOf(s) == t && Nests(s, NESTING_LIMIT)
  }

  lemma {:induction false} TreeAccepted(c: Bytes, o: nat) returns (s: Syntax)
    requires o <= |c| && ParseValue(c, o, 0).Some?
    ensures IsRead(c, o, ParseValue(c, o, 0).value.0, s)
    ensures ParseValue(c, o, 0).value.1 == o + |TextOf(s)| && o < |c| && c[o] > 32
  {
    s := ValueAccepted(c, o, 0);
    if s.Numeric? {
      s := NumberAccepted(c, o, s);
    } else {
      ReadValue(c, o, o + |TextOf(s)|, s, 0);
    }
  }

  lemma {:induction false} NumberAccepted(c: Bytes, o: nat, n: Syntax) returns (s: Syntax)
    requires o <= |c| && ParseValue(c, o, 0).Some? && n.Numeric? && TextThere(c, o, ParseValue(c, o, 0).value.1, n)
    ensures IsRead(c, o, ParseValue(c, o, 0).value.0, s)
    ensures ParseValue(c, o, 0).value.1 == o + |TextOf(s)| && o < |c| && c[o] > 32
  {
    FirstByte(n);
    assert c[o + 0] == TextOf(n)[0];
    NoWord(c, o);
    var t := NumeralAccepted(c, o);
    s := Numeric(t);
  }

  /** A byte order mark or nothing, white space, and a JSON text. */
  ghost predicate Begins(c: Bytes, t: Json, mark: Bytes, w: Bytes, s: Syntax) {
    && (mark == [] || mark == MARK) && TextAt(c, 0, mark) && White(w) && TextAt(c, |mark|, w)
    && IsRead(c, |mark| + |w|, t, s)
  }

  /**
   * The parser's entry point accepts nothing else: a content it makes a tree of begins with a JSON text that
   * stands for the tree and nests at most 1000 deep.
   */
  lemma {:induction false} DocumentAccepted(c: Bytes, requireTerminator: bool)
    requires ParseDocument(c, requireTerminator).Some?
    ensures exists mark: Bytes, w: Bytes, s: Syntax :: Begins(c, ParseDocument(c, requireTerminator).value, mark, w, s)
  {
    var start := DocumentStart(c);
    var mark := if start == 3 then MARK else [];
    var s := TreeAccepted(c, Skip(c, start));
    var w := Skipped(c, start);
    assert Begins(c, ParseDocument(c, requireTerminator).value, mark, w, s);
  }
}
