// What the operations test, move and copy do: their effect on an object's keys and an array's elements, and
// on a path through a child.
module PatchOperations {
  import opened Wrappers
  import opened Sequences
  import opened CText
  import opened JsonTree
  import opened JsonPointer
  import opened Comparison
  import opened JsonPatch
  import opened PatchGenerator
  import opened MemberEdit
  import opened PatchLaw

  // ----- test -----

  lemma {:induction false} DistinctBelow(t: Json, loc: Location, cs: bool)
    requires ValidLocation(t, loc) && Distinct(t, cs)
    ensures Distinct(Sub(t, loc), cs)
    decreases |loc|
  {
    if loc != [] {
      match t
      case Array(items) => DistinctBelow(items[loc[0]], loc[1..], cs);
      case Object(members) => DistinctBelow(members[loc[0]].value, loc[1..], cs);
    }
  }

  /** A test changes no value, and succeeds if and only if the pointer reaches a node that means the value. */
  lemma TestDecides(doc: Json, path: CString, from: Option<Json>, value: Option<Json>, cs: bool)
    requires Distinct(doc, cs) && (value.Some? ==> Distinct(value.value, cs))
    ensures var (status, r) := ApplyOperation(doc, TEST, path, from, value, cs);
      var loc := Locate(doc, path, cs);
      && r == doc && (status == 0 || status == 1)
      && (status == 0 <==> loc.Some? && value.Some?
                           && SameButRaw(Denote(Sub(doc, loc.value), cs), Denote(value.value, cs)))
  {
    var loc := Locate(doc, path, cs);
    if loc.Some? && value.Some? {
      DistinctBelow(doc, loc.value, cs);
      CompareDecides(Sub(doc, loc.value), value.value, cs);
    }
  }

  // ----- move and copy inside one object -----

  /** A `from` field. */
  function Pointer(path: CString): Option<Json> {
    Some(Text(path))
  }

  /** Moving adds to the document left what was taken out of it. */
  lemma MoveTaken(doc: Json, path: CString, source: CString, value: Option<Json>, v: Json, left: Json, cs: bool)
    requires DetachPath(doc, source, cs) == Some((v, left))
    ensures ApplyOperation(doc, MOVE, path, Pointer(source), value, cs) == AddPath(left, path, v, cs)
  {
  }

  lemma CopyFound(doc: Json, path: CString, source: CString, value: Option<Json>, v: Json, cs: bool)
    requires Item(doc, source, cs) == Some(v)
    ensures ApplyOperation(doc, COPY, path, Pointer(source), value, cs) == AddPath(doc, path, v, cs)
  {
  }

  lemma NothingThere(doc: Json, path: CString, source: CString, value: Option<Json>, cs: bool)
    ensures DetachPath(doc, source, cs).None? ==>
      ApplyOperation(doc, MOVE, path, Pointer(source), value, cs) == (5, doc)
    ensures Item(doc, source, cs).None? ==>
      ApplyOperation(doc, COPY, path, Pointer(source), value, cs) == (5, doc)
  {
  }

  /** Detaching by a name that decodes back; both modes have to find the same member. */
  lemma DetachByName(ms: seq<Member>, name: CString, cs: bool)
    requires DecodesBack(name)
    ensures var i := Find(ms, name, false);
      DetachPath(Object(ms), Token(name), cs)
      == if i == |ms| then None else Some((ms[i].value, Object(RemoveAt(ms, i))))
  {
    EncodedChild(name);
    RootDetach(Object(ms), Encode(name), cs);
  }

  /** An object of these fields, with no name twice. */
  predicate HasFields(r: Json, m: map<CString, Value>, cs: bool) {
    r.Object? && DistinctNames(r.members, cs) && DenoteMembers(r.members, cs) == m
  }

  /** Adding under a name that decodes back sets its key. */
  lemma AddByName(ms: seq<Member>, name: CString, v: Json, cs: bool)
    requires DecodesBack(name) && DistinctNames(ms, cs)
    ensures var (status, r) := AddPath(Object(ms), Token(name), v, cs);
      status == 0 && HasFields(r, DenoteMembers(ms, cs)[Key(name, cs) := Denote(v, cs)], cs)
  {
    EncodedChild(name);
    RootAdd(Object(ms), Encode(name), v, cs);
    SetByName(ms, name, v, cs);
  }

  lemma SetByName(ms: seq<Member>, name: CString, v: Json, cs: bool)
    requires DistinctNames(ms, cs)
    ensures var r := RemoveKey(ms, name, cs) + [Member(name, v)];
      HasFields(Object(r), DenoteMembers(ms, cs)[Key(name, cs) := Denote(v, cs)], cs)
  {
    DenoteRemoveKey(ms, name, cs);
    DenoteAppend(RemoveKey(ms, name, cs), Member(name, v), cs);
    var m, k := DenoteMembers(ms, cs), Key(name, cs);
    assert (m - {k})[k := Denote(v, cs)] == m[k := Denote(v, cs)];
  }

  lemma TakeByName(ms: seq<Member>, name: CString, cs: bool)
    requires DistinctNames(ms, cs) && Find(ms, name, cs) < |ms|
    ensures var i := Find(ms, name, cs); var m, k := DenoteMembers(ms, cs), Key(name, cs);
      && k in m && Denote(ms[i].value, cs) == m[k]
      && DistinctNames(RemoveAt(ms, i), cs) && DenoteMembers(RemoveAt(ms, i), cs) == m - {k}
  {
    DenoteFind(ms, name, cs);
    DenoteRemoveAt(ms, Find(ms, name, cs), cs);
  }

  /** Moving a member takes its key away and gives its value to the other key. */
  lemma MoveMember(ms: seq<Member>, source: CString, target: CString, value: Option<Json>, cs: bool)
    requires DistinctNames(ms, cs) && DecodesBack(source) && DecodesBack(target)
    requires Find(ms, source, false) == Find(ms, source, cs)
    ensures var (status, r) := ApplyOperation(Object(ms), MOVE, Token(target), Pointer(Token(source)), value, cs);
      var m, k, j := DenoteMembers(ms, cs), Key(source, cs), Key(target, cs);
      if k in m then status == 0 && HasFields(r, (m - {k})[j := m[k]], cs) else status == 5 && r == Object(ms)
  {
    DetachByName(ms, source, cs);
    DenoteFind(ms, source, cs);
    var i := Find(ms, source, cs);
    if i < |ms| {
      var v, left := ms[i].value, RemoveAt(ms, i);
      TakeByName(ms, source, cs);
      AddByName(left, target, v, cs);
      MoveTaken(Object(ms), Token(target), Token(source), value, v, Object(left), cs);
    } else {
      NothingThere(Object(ms), Token(target), Token(source), value, cs);
    }
  }

  lemma ChildAt(t: Json, i: nat)
    requires i < ChildCount(t)
    ensures ValidLocation(t, [i] + []) && Sub(t, [i] + []) == Child(t, i)
  {
    PutBelow(t, i, [], Null);
  }

  lemma NamedItem(ms: seq<Member>, name: CString, cs: bool)
    ensures var i := Find(ms, name, cs);
      Item(Object(ms), Token(name), cs) == if i == |ms| then None else Some(ms[i].value)
  {
    assert [SLASH] + Encode(name) + [] == Token(name);
    LocateMember(ms, name, [], cs);
    if Find(ms, name, cs) < |ms| { ChildAt(Object(ms), Find(ms, name, cs)); }
  }

  /** Copying a member gives its value to the other key as well. */
  lemma CopyMember(ms: seq<Member>, source: CString, target: CString, value: Option<Json>, cs: bool)
    requires DistinctNames(ms, cs) && DecodesBack(target)
    ensures var (status, r) := ApplyOperation(Object(ms), COPY, Token(target), Pointer(Token(source)), value, cs);
      var m, k, j := DenoteMembers(ms, cs), Key(source, cs), Key(target, cs);
      if k in m then status == 0 && HasFields(r, m[j := m[k]], cs) else status == 5 && r == Object(ms)
  {
    NamedItem(ms, source, cs);
    DenoteFind(ms, source, cs);
    var i := Find(ms, source, cs);
    if i < |ms| {
      AddByName(ms, target, ms[i].value, cs);
      CopyFound(Object(ms), Token(target), Token(source), value, ms[i].value, cs);
    } else {
      NothingThere(Object(ms), Token(target), Token(source), value, cs);
    }
  }

  // ----- move and copy inside one array -----

  lemma AddAtIndex(items: seq<Json>, j: nat, v: Json, cs: bool)
    requires j < SizeMax
    ensures AddPath(Array(items), [SLASH] + Decimal(j), v, cs)
         == if j <= |items| then (0, Array(InsertAt(items, j, v))) else (10, Array(items))
  {
    IndexDecodes(j);
    RootAdd(Array(items), Decimal(j), v, cs);
  }

  /**
   * Moving an element: it is taken out, and the others close up before it is put back. If there is no such
   * place the operation fails and the element is gone.
   */
  lemma MoveItem(items: seq<Json>, i: nat, j: nat, value: Option<Json>, cs: bool)
    requires i < |items| && i < SizeMax && j < SizeMax
    ensures var path, from := [SLASH] + Decimal(j), Pointer([SLASH] + Decimal(i));
      var rest := RemoveAt(items, i);
      ApplyOperation(Array(items), MOVE, path, from, value, cs)
      == if j < |items| then (0, Array(InsertAt(rest, j, items[i]))) else (10, Array(rest))
  {
    IndexDecodes(i);
    RootDetach(Array(items), Decimal(i), cs);
    var v, rest := items[i], RemoveAt(items, i);
    assert DetachChild(Array(items), Decimal(i)) == Some((v, Array(rest)));
    AddAtIndex(rest, j, v, cs);
    MoveTaken(Array(items), [SLASH] + Decimal(j), [SLASH] + Decimal(i), value, v, Array(rest), cs);
  }

  lemma IndexedItem(items: seq<Json>, i: nat, cs: bool)
    requires i < |items| && i < SizeMax
    ensures Item(Array(items), [SLASH] + Decimal(i), cs) == Some(items[i])
  {
    assert [SLASH] + Decimal(i) + [] == [SLASH] + Decimal(i);
    SelectsItem(items, i, cs);
    LocateBelow(Array(items), [SLASH] + Decimal(i), i, [], cs);
    ChildAt(Array(items), i);
  }

  lemma CopyItem(items: seq<Json>, i: nat, j: nat, value: Option<Json>, cs: bool)
    requires i < |items| && i < SizeMax && j < SizeMax
    ensures var path, from := [SLASH] + Decimal(j), Pointer([SLASH] + Decimal(i));
      ApplyOperation(Array(items), COPY, path, from, value, cs)
      == if j <= |items| then (0, Array(InsertAt(items, j, items[i]))) else (10, Array(items))
  {
    IndexedItem(items, i, cs);
    AddAtIndex(items, j, items[i], cs);
    CopyFound(Array(items), [SLASH] + Decimal(j), [SLASH] + Decimal(i), value, items[i], cs);
  }

  // ----- through a child -----

  /** A path of the child, seen from above. */
  predicate Deeper(q: CString) {
    q != [] && q[0] == SLASH
  }

  lemma ItemBelow(t: Json, step: CString, i: nat, q: CString, cs: bool)
    requires ChildStep(t, step, i, cs) && TokenEnd(q)
    ensures Item(t, step + q, cs) == Item(Child(t, i), q, cs)
  {
    ChildStepSelects(t, step, i, cs);
    LocateBelow(t, step, i, q, cs);
    var loc := Locate(Child(t, i), q, cs);
    if loc.Some? { PutBelow(t, i, loc.value, Null); }
  }

  lemma TestBelow(t: Json, step: CString, i: nat, q: CString, from: Option<Json>, value: Option<Json>, cs: bool)
    requires ChildStep(t, step, i, cs) && TokenEnd(q)
    ensures ApplyOperation(t, TEST, step + q, from, value, cs)
         == (ApplyOperation(Child(t, i), TEST, q, from, value, cs).0, t)
  {
    ItemBelow(t, step, i, q, cs);
  }

  /** Copying adds what the other pointer reaches, wherever that is; nothing is copied over the root. */
  lemma CopyIsAdd(doc: Json, source: CString, path: CString, value: Option<Json>, cs: bool)
    ensures var item := Item(doc, source, cs);
      ApplyOperation(doc, COPY, path, Pointer(source), value, cs)
      == if item.None? then (5, doc) else if path == [] then (9, doc)
         else ApplyOperation(doc, ADD, path, None, item, cs)
  {
  }

  lemma CopyBelow(t: Json, step: CString, i: nat, source: CString, q: CString, value: Option<Json>, cs: bool)
    requires ChildStep(t, step, i, cs) && TokenEnd(source) && Deeper(q)
    ensures ApplyOperation(t, COPY, step + q, Pointer(step + source), value, cs)
         == var (status, r) := ApplyOperation(Child(t, i), COPY, q, Pointer(source), value, cs);
            (status, WithChild(t, i, r))
  {
    ItemBelow(t, step, i, source, cs);
    WithChildSame(t, i);
    NothingThere(t, step + q, step + source, value, cs);
    NothingThere(Child(t, i), q, source, value, cs);
    var item := Item(Child(t, i), source, cs);
    if item.Some? {
      ChildStepSelects(t, step, i, cs);
      AddBelow(t, step, i, q, item.value, cs);
      CopyFound(t, step + q, step + source, value, item.value, cs);
      CopyFound(Child(t, i), q, source, value, item.value, cs);
    }
  }

  /** A move inside a child acts inside that child. */
  lemma MoveBelow(t: Json, step: CString, i: nat, source: CString, q: CString, value: Option<Json>, cs: bool)
    requires ChildStep(t, step, i, cs) && Deeper(source) && Deeper(q)
    ensures ApplyOperation(t, MOVE, step + q, Pointer(step + source), value, cs)
         == var (status, r) := ApplyOperation(Child(t, i), MOVE, q, Pointer(source), value, cs);
            (status, WithChild(t, i, r))
  {
    ChildStepSelects(t, step, i, cs);
    WithChildSame(t, i);
    DetachBelow(t, step, i, source, cs);
    NothingThere(t, step + q, step + source, value, cs);
    var taken := DetachPath(Child(t, i), source, cs);
    if taken.Some? {
      var (v, left) := taken.value;
      var next := WithChild(t, i, left);
      ChildStepKept(t, step, i, left, cs);
      ChildStepSelects(next, step, i, cs);
      AddBelow(next, step, i, q, v, cs);
      WithChildTwice(t, i, left, AddPath(left, q, v, cs).1);
      MoveTaken(t, step + q, step + source, value, v, next, cs);
      MoveTaken(Child(t, i), q, source, value, v, left, cs);
    }
  }

  lemma OtherStepKept(t: Json, step: CString, i: nat, other: nat, v: Json, cs: bool)
    requires ChildStep(t, step, i, cs) && other < ChildCount(t) && other != i
    ensures ChildStep(WithChild(t, other, v), step, i, cs) && Child(WithChild(t, other, v), i) == Child(t, i)
  {
    if t.Object? {
      var name :| Find(t.members, name, cs) == i && step == [SLASH] + Encode(name);
      var ms := t.members[other := Member(t.members[other].name, v)];
      assert forall x :: 0 <= x < |ms| ==> ms[x].name == t.members[x].name;
      FindIs(ms, name, cs, i);
    }
  }

  /** A move from one child into another one changes these two. */
  lemma MoveBetween(t: Json, out: CString, i: nat, source: CString, into: CString, j: nat, q: CString,
                    value: Option<Json>, cs: bool)
    requires ChildStep(t, out, i, cs) && ChildStep(t, into, j, cs) && i != j && Deeper(source) && Deeper(q)
    ensures var taken := DetachPath(Child(t, i), source, cs);
      ApplyOperation(t, MOVE, into + q, Pointer(out + source), value, cs)
      == if taken.None? then (5, t)
         else var (status, r) := AddPath(Child(t, j), q, taken.value.0, cs);
           (status, WithChild(WithChild(t, i, taken.value.1), j, r))
  {
    ChildStepSelects(t, out, i, cs);
    DetachBelow(t, out, i, source, cs);
    var taken := DetachPath(Child(t, i), source, cs);
    if taken.Some? {
      var next := WithChild(t, i, taken.value.1);
      OtherStepKept(t, into, j, i, taken.value.1, cs);
      ChildStepSelects(next, into, j, cs);
      AddBelow(next, into, j, q, taken.value.0, cs);
    }
  }

  // ----- operations that fail -----

  lemma {:induction false} PutThenSub(t: Json, loc: Location, v: Json)
    requires ValidLocation(t, loc)
    ensures Put(t, loc, Sub(t, loc)) == t
    ensures ValidLocation(Put(t, loc, v), loc) && Sub(Put(t, loc, v), loc) == v
    decreases |loc|
  {
    if loc != [] {
      match t
      case Array(items) => PutThenSub(items[loc[0]], loc[1..], v);
      case Object(members) => PutThenSub(members[loc[0]].value, loc[1..], v);
    }
  }

  lemma FailedChildKeeps(parent: Json, child: CString, v: Json, cs: bool)
    ensures var (status, r) := AddChild(parent, child, v, cs); status != 0 ==> r == parent
  {
  }

  lemma FailedAtKeeps(doc: Json, loc: Option<Location>, child: CString, v: Json, cs: bool)
    requires loc.Some? ==> ValidLocation(doc, loc.value)
    ensures var (status, r) := AddAt(doc, loc, child, v, cs); status != 0 ==> r == doc
  {
    if loc.Some? {
      FailedChildKeeps(Sub(doc, loc.value), child, v, cs);
      PutThenSub(doc, loc.value, v);
    }
  }

  lemma FailedAddKeeps(doc: Json, path: CString, v: Json, cs: bool)
    ensures var (status, r) := AddPath(doc, path, v, cs); status != 0 ==> r == doc
  {
    var slash := LastSlash(path);
    if slash.Some? {
      FailedAtKeeps(doc, Locate(doc, path[..slash.value], cs), DecodeInPlace(path[slash.value + 1..]), v, cs);
    }
  }

  lemma DetachChanges(doc: Json, path: CString, cs: bool)
    requires DetachPath(doc, path, cs).Some?
    ensures DetachPath(doc, path, cs).value.1 != doc
  {
    var slash := LastSlash(path).value;
    var loc, child := Locate(doc, path[..slash], cs).value, DecodeInPlace(path[slash + 1..]);
    var left := DetachChild(Sub(doc, loc), child).value.1;
    PutThenSub(doc, loc, left);
    assert left != Sub(doc, loc) by {
      if left.Array? {
        assert |left.items| < |Sub(doc, loc).items|;
      } else {
        assert |left.members| < |Sub(doc, loc).members|;
      }
    }
  }

  /** What the first step of a replace or of a move takes out. */
  function FirstTaken(doc: Json, op: Operation, path: CString, from: Option<Json>, cs: bool): Option<(Json, Json)> {
    if op.REPLACE? && path != [] then DetachPath(doc, path, cs)
    else if op.MOVE? && from.Some? && ValueString(from.value).Some? then
      DetachPath(doc, ValueString(from.value).value, cs)
    else None
  }

  /**
   * A failed operation is not undone: the document is as it was if and only if no replace or move had already
   * taken something out, and that is then gone.
   */
  lemma AfterFailure(doc: Json, op: Operation, path: CString, from: Option<Json>, value: Option<Json>, cs: bool)
    requires ApplyOperation(doc, op, path, from, value, cs).0 != 0
    ensures var r := ApplyOperation(doc, op, path, from, value, cs).1;
      var taken := FirstTaken(doc, op, path, from, cs);
      && (r == doc <==> taken.None?)
      && (taken.Some? ==> r == taken.value.1)
  {
    var taken := FirstTaken(doc, op, path, from, cs);
    if taken.Some? {
      DetachChanges(doc, if op.REPLACE? then path else ValueString(from.value).value, cs);
      FailedAddKeeps(taken.value.1, path, if op.REPLACE? && value.Some? then value.value else taken.value.0, cs);
    } else if op.ADD? && value.Some? {
      FailedAddKeeps(doc, path, value.value, cs);
    } else if op.COPY? && from.Some? && ValueString(from.value).Some? {
      var item := Item(doc, ValueString(from.value).value, cs);
      if item.Some? { FailedAddKeeps(doc, path, item.value, cs); }
    }
  }

  // ----- the names of the operations -----

  /** The bytes of a text. */
  function Chars(s: string): CString
    requires forall i :: 0 <= i < |s| ==> 0 < s[i] as int < 128
  {
    seq(|s|, (i: nat) requires i < |s| => s[i] as int as CChar)
  }

  /** Each name stands for its operation, in exactly this spelling, and no other text for any. */
  lemma OperationNames(name: CString)
    ensures DecodeOperation(name) ==
      if name == Chars("add") then ADD
      else if name == Chars("remove") then REMOVE
      else if name == Chars("replace") then REPLACE
      else if name == Chars("move") then MOVE
      else if name == Chars("copy") then COPY
      else if name == Chars("test") then TEST
      else INVALID
  {
    assert Chars("add") == OperationName(ADD) && Chars("remove") == OperationName(REMOVE);
    assert Chars("replace") == OperationName(REPLACE) && Chars("move") == OperationName(MOVE);
    assert Chars("copy") == OperationName(COPY) && Chars("test") == OperationName(TEST);
  }

  /** And so for the fields of a patch. */
  lemma FieldNames()
    ensures OP == Chars("op") && PATH == Chars("path") && FROM == Chars("from") && VALUE == Chars("value")
    ensures DASH == Chars("-")
  {
  }

  // ----- what each status says -----

  /** A token without a tilde is looked up as it stands. */
  lemma PlainToken(token: CString)
    requires SLASH !in token && TILDE !in token
    ensures DecodeInPlace(token) == token
    ensures DecodeIndex(token) == if IndexAccepted(token) then Some(IndexValue(token) % SizeMax) else None
  {
    PlainNamesDecodeBack(token);
    DecodeUndoesEncode(token);
    AppendNothing(token);
    DecodeIndexIs(token, []);
  }

  /**
   * Adding to a container: 9 if it is none, 11 for a token that is no index of an array, 10 for an index
   * behind its end. The index may be the length, and the dash stands for it.
   */
  lemma AddToContainer(t: Json, token: CString, v: Json, cs: bool)
    requires SLASH !in token && TILDE !in token
    ensures var r := AddPath(t, [SLASH] + token, v, cs);
      if t.Object? then r.0 == 0
      else if !t.Array? then r == (9, t)
      else if token == Chars("-") then r == (0, Array(t.items + [v]))
      else if !IndexAccepted(token) then r == (11, t)
      else
        var n := IndexValue(token) % SizeMax;
        r == if n > |t.items| then (10, t) else (0, Array(InsertAt(t.items, n, v)))
  {
    FieldNames();
    PlainToken(token);
    RootAdd(t, token, v, cs);
  }

  /** Taking an element out: an accepted index below the length. Nothing can be taken out of what is no container. */
  lemma TakeFromContainer(t: Json, token: CString, cs: bool)
    requires SLASH !in token && TILDE !in token
    ensures var r := DetachPath(t, [SLASH] + token, cs);
      if t.Object? then r.Some? <==> Find(t.members, token, false) < |t.members|
      else if t.Array? && IndexAccepted(token) then
        var n := IndexValue(token) % SizeMax;
        r == if n < |t.items| then Some((t.items[n], Array(RemoveAt(t.items, n)))) else None
      else r == None
  {
    PlainToken(token);
    RootDetach(t, token, cs);
  }

  /** A path without a slash, or one whose part before the last slash leads nowhere. */
  lemma NoContainer(doc: Json, path: CString, v: Json, cs: bool)
    requires var slash := LastSlash(path); slash.Some? ==> Locate(doc, path[..slash.value], cs).None?
    ensures AddPath(doc, path, v, cs) == (9, doc) && DetachPath(doc, path, cs).None?
  {
  }

  /** The empty path is the root: it can be replaced, and removing it leaves an invalid node behind. */
  lemma RootOperations(doc: Json, op: Operation, from: Option<Json>, value: Option<Json>, cs: bool)
    requires op.ADD? || op.REPLACE? || op.REMOVE?
    ensures ApplyOperation(doc, op, [], from, value, cs)
         == if op.REMOVE? then (0, Invalid) else if value.None? then (7, doc) else (0, value.value)
  {
  }

  /** The member `from` points at something. */
  predicate SourceThere(doc: Json, op: Operation, from: Option<Json>, cs: bool) {
    from.Some? && ValueString(from.value).Some?
    && var source := ValueString(from.value).value;
       if op.MOVE? then DetachPath(doc, source, cs).Some? else Item(doc, source, cs).Some?
  }

  lemma AddStatus(doc: Json, path: CString, v: Json, cs: bool)
    ensures AddPath(doc, path, v, cs).0 in {0, 9, 10, 11}
  {
  }

  lemma AfterTaking(doc: Json, op: Operation, path: CString, from: Option<Json>, value: Option<Json>, cs: bool)
    requires op.MOVE? || op.COPY?
    ensures var status := ApplyOperation(doc, op, path, from, value, cs).0;
      if from.None? then status == 4 else if !SourceThere(doc, op, from, cs) then status == 5
      else status in {0, 9, 10, 11}
  {
    if SourceThere(doc, op, from, cs) {
      var source := ValueString(from.value).value;
      if op.MOVE? {
        var (v, left) := DetachPath(doc, source, cs).value;
        AddStatus(left, path, v, cs);
      } else {
        AddStatus(doc, path, Item(doc, source, cs).value, cs);
      }
    }
  }

  lemma AfterRemoving(doc: Json, op: Operation, path: CString, from: Option<Json>, value: Option<Json>, cs: bool)
    requires (op.REMOVE? || op.REPLACE?) && path != []
    ensures var status := ApplyOperation(doc, op, path, from, value, cs).0;
      if DetachPath(doc, path, cs).None? then status == 13
      else if op.REMOVE? then status == 0
      else if value.None? then status == 7
      else status in {0, 9, 10, 11}
  {
    var taken := DetachPath(doc, path, cs);
    if taken.Some? && value.Some? { AddStatus(taken.value.1, path, value.value, cs); }
  }

  /** When each status of the operation is given; 9, 10 and 11 are those of adding, when all else has succeeded. */
  lemma StatusSays(doc: Json, op: Operation, path: CString, from: Option<Json>, value: Option<Json>, cs: bool)
    ensures var status := ApplyOperation(doc, op, path, from, value, cs).0;
      var taken := DetachPath(doc, path, cs).Some?;
      && (status == 3 <==> op.INVALID?)
      && (status == 4 <==> (op.MOVE? || op.COPY?) && from.None?)
      && (status == 5 <==> (op.MOVE? || op.COPY?) && from.Some? && !SourceThere(doc, op, from, cs))
      && (status == 7 <==> value.None? && (op.ADD? || (op.REPLACE? && (path == [] || taken))))
      && (status == 13 <==> (op.REMOVE? || op.REPLACE?) && path != [] && !taken)
      && (status == 1 ==> op.TEST?) && status in {0, 1, 3, 4, 5, 7, 9, 10, 11, 13}
  {
    if op.MOVE? || op.COPY? {
      AfterTaking(doc, op, path, from, value, cs);
    } else if (op.REMOVE? || op.REPLACE?) && path != [] {
      AfterRemoving(doc, op, path, from, value, cs);
    } else if op.ADD? && value.Some? {
      AddStatus(doc, path, value.value, cs);
    }
  }

  // ----- the fields of a patch -----

  /** A field of a patch is read by the key of its name: in the mode that ignores case "PATH" is a path as well. */
  lemma FieldMeans(patch: Json, name: CString, cs: bool)
    requires patch.Object?
    ensures var m, k := DenoteMembers(patch.members, cs), Key(name, cs); var r := GetObjectItem(patch, name, cs);
      (r.Some? <==> k in m) && (r.Some? ==> Denote(r.value, cs) == m[k])
  {
    DenoteFind(patch.members, name, cs);
  }

  /** A patch whose path is no string, and one whose operation is none, are refused. */
  lemma MalformedPatch(doc: Json, patch: Json, cs: bool)
    ensures var path, op := GetObjectItem(patch, Chars("path"), cs), GetObjectItem(patch, Chars("op"), cs);
      var (status, r) := ApplyPatch(doc, patch, cs);
      && (status == 2 <==> path.None? || !path.value.Text?)
      && (status == 3 <==> !(path.None? || !path.value.Text?)
                           && (op.None? || !op.value.Text? || DecodeOperation(op.value.text).INVALID?))
      && (status == 2 || status == 3 ==> r == doc)
  {
    FieldNames();
    var path, op := GetObjectItem(patch, PATH, cs), GetObjectItem(patch, OP, cs);
    if path.Some? && path.value.Text? {
      var code := if op.Some? && op.value.Text? then DecodeOperation(op.value.text) else INVALID;
      StatusSays(doc, code, path.value.text, GetObjectItem(patch, FROM, cs), GetObjectItem(patch, VALUE, cs), cs);
    }
  }
}
