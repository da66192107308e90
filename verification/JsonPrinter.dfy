// The printer over its growing buffer: ensure, update_offset, print_value and the functions it calls.
module JsonPrinter {
  import opened Wrappers
  import opened Sequences
  import opened CText
  import opened JsonTree
  import opened Octets
  import opened Unicode
  import opened JsonText

  const INT_MAX: nat := 0x7FFF_FFFF

  /** When `ensure` returns a pointer: it fits already, or the buffer may grow and stays within INT_MAX. */
  predicate EnsureSucceeds(length: nat, offset: nat, needed: nat, noalloc: bool) {
    && needed <= INT_MAX
    && (needed + offset + 1 <= length || (!noalloc && needed + offset + 1 <= INT_MAX))
  }

  /** Behind the last member only `close` is left, and all members printable make the object printable. */
  lemma MembersDone(item: Json, i: nat, format: bool, depth: nat, close: Bytes)
    requires item.Object? && i == |item.members|
    ensures PrintMembers(item, item.members[i..], format, depth) + close == close
    ensures (forall j :: 0 <= j < i ==> Printable(item.members[j].value)) ==> Printable(item)
  {
    assert [] + close == close;
  }

  class PrintBuffer {
    var buffer: Bytes
    var offset: nat
    var depth: nat
    ghost var done: Bytes  // the text behind the offset
    const noalloc: bool
    const format: bool

    constructor (length: nat, noalloc: bool, format: bool)
      ensures Valid() && done == [] && depth == 0 && |buffer| == length
      ensures this.noalloc == noalloc && this.format == format
    {
      buffer := Repeat(0, length);
      offset, depth, done := 0, 0, [];
      this.noalloc, this.format := noalloc, format;
    }

    /** The next byte to write lies inside the buffer, unless there is no buffer yet. */
    ghost predicate Valid()
      reads this
    {
      && (offset < |buffer| || (offset == 0 && buffer == []))
      && buffer[..offset] == done && ZeroFree(done)
    }

    /** How far the text may reach: a caller's buffer does not grow, and no buffer grows beyond INT_MAX. */
    ghost function Limit(): nat
      reads `buffer
    {
      if noalloc && |buffer| < INT_MAX then |buffer| else INT_MAX
    }

    /** The buffer holds the zero-terminated text `full`; the offset is still somewhere inside it. */
    ghost predicate Written(full: Bytes)
      reads this
    {
      |full| < |buffer| && buffer[..|full|] == full && buffer[|full|] == 0 && offset <= |full| && ZeroFree(full)
    }

    /** Room for `needed` bytes and a terminator at the offset, by growing the buffer if need be. */
    method Ensure(needed: nat) returns (ok: bool)
      requires Valid()
      modifies this`buffer
      ensures Limit() == old(Limit())
      ensures ok == EnsureSucceeds(old(|buffer|), offset, needed, noalloc)
      ensures ok ==> offset + needed < |buffer|
      ensures var wanted := needed + offset + 1;
        if !ok || wanted <= old(|buffer|) then buffer == old(buffer)
        else |buffer| == if wanted > INT_MAX / 2 then INT_MAX else wanted * 2
      ensures Valid()
    {
      if |buffer| > 0 && offset >= |buffer| {
        return false;
      }
      if needed > INT_MAX {
        return false;
      }
      var wanted := needed + offset + 1;
      if wanted <= |buffer| {
        return true;
      }
      if noalloc {
        return false;
      }
      var newSize;
      if wanted > INT_MAX / 2 {
        if wanted <= INT_MAX {
          newSize := INT_MAX;
        } else {
          return false;
        }
      } else {
        newSize := wanted * 2;
      }
      buffer := buffer + Repeat(0, newSize - |buffer|);
      ok := true;
    }

    /** update_offset: the offset moves to the terminator. */
    method UpdateOffset(ghost full: Bytes)
      requires Written(full)
      modifies this`offset, this`done
      ensures done == full && Valid()
    {
      var length := 0;
      while buffer[offset + length] != 0
        invariant offset + length <= |full|
        decreases |full| - length
      {
        assert buffer[..|full|] == full;
        length := length + 1;
      }
      assert offset + length == |full|;
      offset := offset + length;
      done := full;
    }

    /** Bytes stored one after the other through an advancing pointer. */
    method Emit(position: nat, text: Bytes) returns (next: nat)
      requires position + |text| <= |buffer|
      modifies this`buffer
      ensures Limit() == old(Limit())
      ensures |buffer| == old(|buffer|) && next == position + |text|
      ensures buffer[..next] == old(buffer[..position]) + text
    {
      var i := 0;
      while i < |text|
        invariant 0 <= i <= |text| && |buffer| == old(|buffer|)
        invariant buffer[..position + i] == old(buffer[..position]) + text[..i]
      {
        buffer := buffer[position + i := text[i]];
        i := i + 1;
      }
      assert text[..i] == text;
      next := position + i;
    }

    /** Room for `needed` bytes, then the text and its terminator; the offset stays in front. */
    method Finish(text: Bytes, needed: nat) returns (ok: bool)
      requires Valid() && ZeroFree(text) && |text| <= needed
      modifies this`buffer
      ensures Limit() == old(Limit())
      ensures ok == EnsureSucceeds(old(|buffer|), offset, needed, noalloc)
      ensures ok ==> Written(old(done) + text)
    {
      ok := Ensure(needed);
      if ok {
        var next := Emit(offset, text);
        Terminate(next, done + text);
      }
    }

    /** The terminator behind the text. */
    method Terminate(position: nat, ghost full: Bytes)
      requires offset <= position < |buffer| && buffer[..position] == full && ZeroFree(full)
      modifies this`buffer
      ensures Limit() == old(Limit())
      ensures Written(full)
    {
      buffer := buffer[position := 0];
    }

    /** Room for `needed` bytes, then the text, and the offset behind it. */
    method Advance(text: Bytes, needed: nat) returns (ok: bool)
      requires Valid() && ZeroFree(text) && |text| <= needed
      modifies this`buffer, this`offset, this`done
      ensures Limit() == old(Limit())
      ensures ok == EnsureSucceeds(old(|buffer|), old(offset), needed, noalloc)
      ensures ok ==> Valid() && done == old(done) + text
    {
      ok := Ensure(needed);
      if ok {
        offset := Emit(offset, text);
        done := done + text;
      }
    }

    method WriteNumber(n: Int32) returns (ok: bool)
      requires Valid()
      modifies this`buffer, this`offset
      ensures Limit() == old(Limit())
      ensures ok == EnsureSucceeds(old(|buffer|), old(offset), |PrintNumber(n)| + 1, noalloc)
      ensures ok ==> Written(old(done) + PrintNumber(n))
    {
      ok := Finish(PrintNumber(n), |PrintNumber(n)| + 1);
      if ok {
        offset := offset + |PrintNumber(n)|;
      }
    }

    /** print_string_ptr: a counting pass, then a writing pass that ends exactly at the predicted place. */
    method WriteString(input: CString) returns (ok: bool)
      requires Valid()
      modifies this`buffer
      ensures Limit() == old(Limit())
      ensures ok == EnsureSucceeds(old(|buffer|), offset, |PrintString(input)| + 1, noalloc)
      ensures ok ==> Written(old(done) + PrintString(input))
    {
      var escapes := CountEscapes(input);
      ok := Ensure(|input| + escapes + 3);
      if ok {
        QuoteString(input, escapes);
      }
    }

    method QuoteString(input: CString, escapes: nat)
      requires Valid() && |PrintChars(input)| == |input| + escapes && offset + |input| + escapes + 3 < |buffer|
      modifies this`buffer
      ensures Limit() == old(Limit())
      ensures Written(done + PrintString(input))
    {
      var outputLength := |input| + escapes;
      var next := Emit(offset, [QUOTE]);
      if escapes == 0 {
        NoEscapes(input);
        next := Emit(next, ToBytes(input));
      } else {
        next := WriteEscaped(next, input);
      }
      assert next == offset + outputLength + 1;
      next := Emit(next, [QUOTE]);
      QuoteParts(done, input);
      Terminate(next, done + PrintString(input));
    }

    /** The writing pass. */
    method WriteEscaped(position: nat, input: CString) returns (next: nat)
      requires position + |PrintChars(input)| < |buffer|
      modifies this`buffer
      ensures Limit() == old(Limit())
      ensures |buffer| == old(|buffer|) && next == position + |PrintChars(input)|
      ensures buffer[..next] == old(buffer[..position]) + PrintChars(input)
    {
      next := position;
      var i := 0;
      ghost var before := buffer[..position];
      while i < |input|
        invariant 0 <= i <= |input| && |buffer| == old(|buffer|)
        invariant next == position + |PrintChars(input[..i])| < |buffer|
        invariant buffer[..next] == before + PrintChars(input[..i])
      {
        PrintCharsStep(input, i);
        Regroup(before, PrintChars(input[..i]), PrintChar(input[i]));
        next := WriteChar(next, input[i]);
        i := i + 1;
      }
      assert input[..i] == input;
    }

    /** One character of the writing pass. */
    method WriteChar(position: nat, c: CChar) returns (next: nat)
      requires position + |PrintChar(c)| < |buffer|
      modifies this`buffer
      ensures Limit() == old(Limit())
      ensures |buffer| == old(|buffer|) && next == position + |PrintChar(c)|
      ensures buffer[..next] == old(buffer[..position]) + PrintChar(c)
    {
      if c > 31 && c != 34 && c != 92 {
        next := Emit(position, [c as int as Byte]);
      } else {
        next := Emit(position, [BACKSLASH]);
        if EscapeLetter(c) != 0 {
          next := Emit(next, [EscapeLetter(c)]);
        } else {
          next := Emit(next, [117, 48, 48, HexDigit(c as int / 16), HexDigit(c as int % 16)]);
        }
      }
    }

    method WriteValue(item: Json) returns (ok: bool)
      requires Valid()
      modifies this
      ensures Limit() == old(Limit())
      ensures ok ==> Printable(item) && depth == old(depth)
      ensures ok ==> Written(old(done) + Print(item, format, old(depth)))
      ensures old(Fits(item, offset, depth)) ==> ok
      decreases item, 1, 0
    {
      match item {
        case Null => ok := Finish(NULL_TEXT, |NULL_TEXT| + 1);
        case False => ok := Finish(FALSE_TEXT, |FALSE_TEXT| + 1);
        case True => ok := Finish(TRUE_TEXT, |TRUE_TEXT| + 1);
        case Number(n) => ok := WriteNumber(n);
        case Raw(s) => ok := WriteRaw(s);
        case Text(s) => ok := WriteString(s);
        case Array(items) => ok := WriteArray(item);
        case Object(members) => ok := WriteObject(item);
        case Invalid => ok := false;
      }
    }

    /** Nothing stops the printer: the tree is printable, and its text with 2 bytes to spare is within the limit. */
    ghost predicate Fits(item: Json, before: nat, depth: nat)
      reads `buffer
    {
      Printable(item) && before + |Print(item, format, depth)| + 2 <= Limit()
    }

    /** print_array: the text still to come after each step is what is left of the item's own text. */
    method WriteArray(item: Json) returns (ok: bool)
      requires Valid() && item.Array?
      modifies this
      ensures Limit() == old(Limit())
      ensures ok ==> Printable(item) && depth == old(depth)
      ensures ok ==> Written(old(done) + Print(item, format, old(depth)))
      ensures old(Fits(item, offset, depth)) ==> ok
      decreases item, 0, |item.items| + 1
    {
      ok := Advance([LBRACKET], 1);
      if ok {
        depth := depth + 1;
        ArrayText(item, format, old(depth), old(done));
        ok := WriteItems(item, old(done) + Print(item, format, old(depth)));
      }
      if ok {
        ok := Finish([RBRACKET], 2);
        depth := depth - 1;
      }
    }

    /** The loop over the elements. */
    method WriteItems(item: Json, ghost total: Bytes) returns (ok: bool)
      requires Valid() && item.Array?
      requires total == done + (PrintItems(item, item.items, format, depth) + [RBRACKET])
      modifies this
      ensures Limit() == old(Limit())
      ensures ok ==> Valid() && depth == old(depth) && Printable(item) && total == done + [RBRACKET]
      ensures Printable(item) && |total| + 2 <= old(Limit()) ==> ok
      decreases item, 0, |item.items|
    {
      ok := true;
      var i := 0;
      assert item.items[0..] == item.items;
      while i < |item.items| && ok
        invariant 0 <= i <= |item.items|
        invariant ok ==> Valid() && depth == old(depth)
        invariant ok ==> total == done + (PrintItems(item, item.items[i..], format, depth) + [RBRACKET])
        invariant ok ==> forall j :: 0 <= j < i ==> Printable(item.items[j])
        invariant Limit() == old(Limit())
        invariant Printable(item) && |total| + 2 <= Limit() ==> ok
        decreases |item.items| - i, ok
      {
        ok := WriteItem(item, i, total);
        if ok {
          i := i + 1;
        }
      }
    }

    /** One element and the separator after it. */
    method WriteItem(item: Json, i: nat, ghost total: Bytes) returns (ok: bool)
      requires Valid() && item.Array? && i < |item.items|
      requires total == done + (PrintItems(item, item.items[i..], format, depth) + [RBRACKET])
      modifies this
      ensures Limit() == old(Limit())
      ensures ok ==> Valid() && depth == old(depth) && Printable(item.items[i])
      ensures ok ==> total == done + (PrintItems(item, item.items[i + 1..], format, depth) + [RBRACKET])
      ensures Printable(item.items[i]) && |total| + 2 <= old(Limit()) ==> ok
      decreases item, 0, 0
    {
      var last := i + 1 == |item.items|;
      ghost var full := done + Print(item.items[i], format, depth);
      ghost var rest := PrintItems(item, item.items[i + 1..], format, depth) + [RBRACKET];
      ItemsStep(item, item.items, i, format, depth);
      Regroup(done, Print(item.items[i], format, depth), (if last then [] else Separator(format)) + rest);
      ok := WriteValue(item.items[i]);
      if ok {
        UpdateOffset(full);
        if !last {
          Regroup(full, Separator(format), rest);
          ok := Advance(Separator(format), |Separator(format)| + 1);
        }
      }
    }

    /** print_object, in the same way. */
    method WriteObject(item: Json) returns (ok: bool)
      requires Valid() && item.Object?
      modifies this
      ensures Limit() == old(Limit())
      ensures ok ==> Printable(item) && depth == old(depth)
      ensures ok ==> Written(old(done) + Print(item, format, old(depth)))
      ensures old(Fits(item, offset, depth)) ==> ok
      decreases item, 0, |item.members| + 1
    {
      var close := (if format then Repeat(TAB, depth) else []) + [RBRACE];
      ok := Advance(OpenObject(format), |OpenObject(format)| + 1);
      if ok {
        depth := depth + 1;
        ObjectText(item, format, old(depth), close, old(done));
        ok := WriteMembers(item, old(done) + Print(item, format, old(depth)), close);
      }
      if ok {
        ok := Finish(close, if format then depth + 1 else 2);
        depth := depth - 1;
      }
    }

    /** The loop over the members. */
    method WriteMembers(item: Json, ghost total: Bytes, ghost close: Bytes) returns (ok: bool)
      requires Valid() && item.Object? && ZeroFree(close) && close != []
      requires total == done + (PrintMembers(item, item.members, format, depth) + close)
      modifies this
      ensures Limit() == old(Limit())
      ensures ok ==> Valid() && depth == old(depth) && Printable(item) && total == done + close
      ensures Printable(item) && |total| + 2 <= old(Limit()) ==> ok
      decreases item, 0, |item.members|
    {
      ok := true;
      var i := 0;
      assert item.members[0..] == item.members;
      while i < |item.members| && ok
        invariant 0 <= i <= |item.members|
        invariant ok ==> Valid() && depth == old(depth)
        invariant ok ==> total == done + (PrintMembers(item, item.members[i..], format, depth) + close)
        invariant ok ==> forall j :: 0 <= j < i ==> Printable(item.members[j].value)
        invariant Limit() == old(Limit())
        invariant Printable(item) && |total| + 2 <= Limit() ==> ok
        decreases |item.members| - i, ok
      {
        ok := WriteMember(item, i, total, close);
        if ok {
          i := i + 1;
        }
      }
      if ok {
        MembersDone(item, i, format, depth, close);
      }
    }

    /** One member: indentation, name, colon, value, comma and line break. */
    method WriteMember(item: Json, i: nat, ghost total: Bytes, ghost close: Bytes) returns (ok: bool)
      requires Valid() && item.Object? && i < |item.members| && ZeroFree(close) && close != []
      requires total == done + (PrintMembers(item, item.members[i..], format, depth) + close)
      modifies this
      ensures Limit() == old(Limit())
      ensures ok ==> Valid() && depth == old(depth) && Printable(item.members[i].value)
      ensures ok ==> total == done + (PrintMembers(item, item.members[i + 1..], format, depth) + close)
      ensures Printable(item.members[i].value) && |total| + 2 <= old(Limit()) ==> ok
      decreases item, 0, 0
    {
      var m := item.members[i];
      var last := i + 1 == |item.members|;
      ghost var rest := PrintMembers(item, item.members[i + 1..], format, depth) + close;
      MembersStep(item, item.members, i, format, depth, close);
      MemberParts(m, format, depth, last, done, rest);
      ok := WriteName(m.name);
      if ok {
        ok := WriteMemberValue(m.value, last, total, rest);
      }
    }

    /** The value of a member and what follows it. */
    method WriteMemberValue(value: Json, last: bool, ghost total: Bytes, ghost rest: Bytes) returns (ok: bool)
      requires Valid()
      requires total == done + (Print(value, format, depth) + (AfterMember(format, last) + rest))
      modifies this
      ensures Limit() == old(Limit())
      ensures ok ==> Valid() && depth == old(depth) && Printable(value) && total == done + rest
      ensures Printable(value) && |total| + 2 <= old(Limit()) ==> ok
      decreases value, 2, 0
    {
      ghost var full := done + Print(value, format, depth);
      Regroup(done, Print(value, format, depth), AfterMember(format, last) + rest);
      ok := WriteValue(value);
      if ok {
        UpdateOffset(full);
        Regroup(full, AfterMember(format, last), rest);
        ok := Advance(AfterMember(format, last), |AfterMember(format, last)| + 1);
      }
    }

    /** Indentation, name and colon. */
    method WriteName(name: CString) returns (ok: bool)
      requires Valid()
      modifies this`buffer, this`offset, this`done
      ensures Limit() == old(Limit())
      ensures ok ==> Valid() && done == old(done) + NamePart(name, format, depth)
      ensures |old(done)| + |NamePart(name, format, depth)| + 2 <= old(Limit()) ==> ok
    {
      ok := true;
      if format {
        ok := Advance(Repeat(TAB, depth), depth);
      }
      if ok {
        ghost var full := done + PrintString(name);
        ok := WriteString(name);
        if ok {
          UpdateOffset(full);
          ok := Advance(AfterName(format), |AfterName(format)|);
          NameParts(old(done), name, format, depth);
        }
      }
    }

    method WriteRaw(s: CString) returns (ok: bool)
      requires Valid()
      modifies this`buffer
      ensures Limit() == old(Limit())
      ensures ok == EnsureSucceeds(old(|buffer|), offset, |s| + 1, noalloc)
      ensures ok ==> Written(old(done) + ToBytes(s))
    {
      ok := Finish(ToBytes(s), |s| + 1);
    }
  }

  lemma {:induction false} ItemsStep(whole: Json, items: seq<Json>, i: nat, format: bool, depth: nat)
    requires i < |items| && forall j :: 0 <= j < |items| ==> items[j] < whole
    ensures PrintItems(whole, items[i..], format, depth) + [RBRACKET]
         == Print(items[i], format, depth) + ((if i + 1 == |items| then [] else Separator(format))
            + (PrintItems(whole, items[i + 1..], format, depth) + [RBRACKET]))
  {
    assert items[i..][1..] == items[i + 1..];
  }

  lemma ArrayText(item: Json, format: bool, depth: nat, before: Bytes)
    requires item.Array?
    ensures before + Print(item, format, depth)
         == (before + [LBRACKET]) + (PrintItems(item, item.items, format, depth + 1) + [RBRACKET])
  {
  }

  lemma ObjectText(item: Json, format: bool, depth: nat, close: Bytes, before: Bytes)
    requires item.Object? && close == (if format then Repeat(TAB, depth) else []) + [RBRACE]
    ensures before + Print(item, format, depth)
         == (before + OpenObject(format)) + (PrintMembers(item, item.members, format, depth + 1) + close)
  {
  }

  lemma {:induction false} MembersStep(whole: Json, members: seq<Member>, i: nat, format: bool, depth: nat,
                                       close: Bytes)
    requires i < |members| && forall j :: 0 <= j < |members| ==> members[j].value < whole
    ensures PrintMembers(whole, members[i..], format, depth) + close
         == PrintMember(members[i], format, depth, i + 1 == |members|)
            + (PrintMembers(whole, members[i + 1..], format, depth) + close)
  {
    assert members[i..][1..] == members[i + 1..];
  }

  lemma QuoteParts(before: Bytes, s: CString)
    ensures before + [QUOTE] + PrintChars(s) + [QUOTE] == before + PrintString(s)
  {
  }

  lemma NameParts(before: Bytes, name: CString, format: bool, depth: nat)
    ensures (if format then before + Repeat(TAB, depth) else before) + PrintString(name) + AfterName(format)
         == before + NamePart(name, format, depth)
  {
  }

  /** The parts of a member's text, appended one after the other. */
  lemma MemberParts(m: Member, format: bool, depth: nat, last: bool, before: Bytes, rest: Bytes)
    ensures before + (PrintMember(m, format, depth, last) + rest)
         == (before + NamePart(m.name, format, depth))
             + (Print(m.value, format, depth) + (AfterMember(format, last) + rest))
  {
  }

  /** The counting pass finds by how much the printed characters outgrow the input. */
  method CountEscapes(input: CString) returns (escapes: nat)
    ensures |PrintChars(input)| == |input| + escapes
  {
    escapes := 0;
    var i := 0;
    while i < |input|
      invariant 0 <= i <= |input|
      invariant |PrintChars(input[..i])| == i + escapes
    {
      PrintCharsStep(input, i);
      if EscapeLetter(input[i]) != 0 {
        escapes := escapes + 1;
      } else if input[i] < 32 {
        escapes := escapes + 5;
      }
      i := i + 1;
    }
    assert input[..i] == input;
  }

  lemma PrintCharsStep(s: CString, i: nat)
    requires i < |s|
    ensures PrintChars(s[..i + 1]) == PrintChars(s[..i]) + PrintChar(s[i])
    ensures |PrintChars(s[..i + 1])| <= |PrintChars(s)|
  {
    assert s[..i + 1] == s[..i] + [s[i]];
    PrintCharsAppend(s[..i], [s[i]]);
    assert PrintChars([s[i]]) == PrintChar(s[i]) + [];
    assert s == s[..i + 1] + s[i + 1..];
    PrintCharsAppend(s[..i + 1], s[i + 1..]);
  }

  lemma {:induction false} NoEscapes(s: CString)
    requires |PrintChars(s)| == |s|
    ensures PrintChars(s) == ToBytes(s)
  {
    if s != [] {
      PrintCharsNotShorter(s[1..]);
      NoEscapes(s[1..]);
    }
  }

  lemma {:induction false} PrintCharsNotShorter(s: CString)
    ensures |PrintChars(s)| >= |s|
  {
    if s != [] { PrintCharsNotShorter(s[1..]); }
  }

  /**
   * cJSON_Print and cJSON_PrintUnformatted. The text depends on the tree and the layout alone, however
   * often the buffer had to grow from its 256 bytes; printing fails only for an unprintable tree or for a
   * text near INT_MAX bytes.
   */
  method PrintTree(item: Json, format: bool) returns (printed: Option<Bytes>)
    ensures printed.Some? ==> Printable(item) && printed.value == Print(item, format, 0)
    ensures Printable(item) && |Print(item, format, 0)| + 2 <= INT_MAX ==> printed.Some?
  {
    var p := new PrintBuffer(256, false, format);
    var ok := p.WriteValue(item);
    if !ok {
      return None;
    }
    p.UpdateOffset(Print(item, format, 0));
    printed := Some(p.buffer[..p.offset]);
  }

  /** cJSON_PrintBuffered: any initial size gives the same text. */
  method PrintBuffered(item: Json, prebuffer: nat, format: bool) returns (printed: Option<Bytes>)
    ensures printed.Some? ==> Printable(item) && printed.value == Print(item, format, 0)
    ensures Printable(item) && |Print(item, format, 0)| + 2 <= INT_MAX ==> printed.Some?
  {
    var p := new PrintBuffer(prebuffer, false, format);
    var ok := p.WriteValue(item);
    if !ok {
      return None;
    }
    var length := 0;
    ghost var full := Print(item, format, 0);
    assert [] + full == full;
    while p.buffer[length] != 0
      invariant 0 <= length <= |full|
      decreases |full| - length
    {
      assert p.buffer[..|full|] == full;
      length := length + 1;
    }
    assert length == |full|;
    printed := Some(p.buffer[..length]);
  }

  /** cJSON_PrintPreallocated: the same text, and it succeeds in a caller's buffer with 2 bytes to spare. */
  method PrintPreallocated(item: Json, length: nat, format: bool) returns (printed: Option<Bytes>)
    ensures printed.Some? ==> Printable(item) && printed.value == Print(item, format, 0)
    ensures printed.Some? && length < INT_MAX ==> |printed.value| < length
    ensures Printable(item) && |Print(item, format, 0)| + 2 <= length <= INT_MAX ==> printed.Some?
  {
    var p := new PrintBuffer(length, true, format);
    var ok := p.WriteValue(item);
    if !ok {
      return None;
    }
    p.UpdateOffset(Print(item, format, 0));
    printed := Some(p.buffer[..p.offset]);
  }
}
