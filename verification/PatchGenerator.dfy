// create_patches, and the law it exists for: applying the generated patch turns the source into the target.
module PatchGenerator {
  import opened Wrappers
  import opened Sequences
  import opened CText
  import opened JsonTree
  import opened JsonPointer
  import opened Comparison
  import opened JsonPatch

  /** One call of compose_patch. */
  datatype Edit = Edit(op: Operation, path: CString, value: Option<Json>)

  /** The patch object compose_patch builds. */
  function ComposePatch(e: Edit): Json {
    Object([Member(OP, Text(OperationName(e.op))), Member(PATH, Text(e.path))]
           + if e.value.Some? then [Member(VALUE, e.value.value)] else [])
  }

  /** The reference token that compose_patch and the recursion append to a path. */
  function Token(name: CString): CString {
    [SLASH] + Encode(name)
  }

  function CreateEdits(path: CString, from: Json, to: Json, cs: bool): seq<Edit>
    decreases from, 1, 0
  {
    if Kind(from) != Kind(to) then [Edit(REPLACE, path, Some(to))]
    else match from
      case Number(n) => if n != to.n then [Edit(REPLACE, path, Some(to))] else []
      case Text(s) => if s != to.text then [Edit(REPLACE, path, Some(to))] else []
      case Array(items) => ItemEdits(path, from, items, to.items, 0, cs)
      case Object(members) => MemberEdits(path, from, SortMembers(members, cs), SortMembers(to.members, cs), cs)
      case _ => []
  }

  /** The three loops over two arrays. */
  function ItemEdits(path: CString, ghost whole: Json, fs: seq<Json>, ts: seq<Json>, index: nat, cs: bool): seq<Edit>
    requires forall i :: 0 <= i < |fs| ==> fs[i] < whole
    decreases whole, 0, |fs|
  {
    if fs != [] && ts != [] then
      CreateEdits(path + [SLASH] + Decimal(index), fs[0], ts[0], cs)
          + ItemEdits(path, whole, fs[1..], ts[1..], index + 1, cs)
    else RemoveEdits(path, |fs|, index) + AppendEdits(path, ts)
  }

  /** Leftover elements are removed one after the other at the same index. */
  function RemoveEdits(path: CString, count: nat, index: nat): seq<Edit> {
    if count == 0 then [] else [Edit(REMOVE, path + Token(Decimal(index)), None)] + RemoveEdits(path, count - 1, index)
  }

  function AppendEdits(path: CString, ts: seq<Json>): seq<Edit> {
    if ts == [] then [] else [Edit(ADD, path + Token(DASH), Some(ts[0]))] + AppendEdits(path, ts[1..])
  }

  /** The side-by-side walk over two sorted member lists. */
  function MemberEdits(path: CString, ghost whole: Json, fs: seq<Member>, ts: seq<Member>, cs: bool): seq<Edit>
    requires forall m :: m in fs ==> m.value < whole
    decreases whole, 0, |fs| + |ts|
  {
    if fs == [] && ts == [] then []
    else
      var diff := Diff(fs, ts, cs);
      if diff == 0 then
        CreateEdits(path + Token(fs[0].name), fs[0].value, ts[0].value, cs)
            + MemberEdits(path, whole, fs[1..], ts[1..], cs)
      else if diff < 0 then
        [Edit(REMOVE, path + Token(fs[0].name), None)] + MemberEdits(path, whole, fs[1..], ts, cs)
      else
        [Edit(ADD, path + Token(ts[0].name), Some(ts[0].value))] + MemberEdits(path, whole, fs, ts[1..], cs)
  }

  /** Which of the two heads comes first; a list that ran out comes last. */
  function Diff(fs: seq<Member>, ts: seq<Member>, cs: bool): (d: int)
    requires fs != [] || ts != []
    ensures fs == [] ==> d > 0
    ensures ts == [] ==> d < 0
  {
    if fs == [] then 1
    else if ts == [] then -1
    else StrCmp(Key(fs[0].name, cs), Key(ts[0].name, cs))
  }

  /** cJSONUtils_GeneratePatches and its case-sensitive form. */
  function GeneratePatches(from: Json, to: Json, cs: bool): Json {
    Array(Composed(CreateEdits([], from, to, cs)))
  }

  function Composed(edits: seq<Edit>): (r: seq<Json>)
    ensures |r| == |edits|
    ensures forall i {:trigger r[i]} :: 0 <= i < |r| ==> r[i] == ComposePatch(edits[i])
  {
    if edits == [] then [] else [ComposePatch(edits[0])] + Composed(edits[1..])
  }

  // ----- the generator with its loops -----

  lemma {:induction false} ComposedConcat(a: seq<Edit>, b: seq<Edit>)
    ensures Composed(a + b) == Composed(a) + Composed(b)
  {
    var r := Composed(a) + Composed(b);
    assert forall i :: 0 <= i < |r| ==> Composed(a + b)[i] == r[i];
    assert Composed(a + b) == r;
  }

  /** `a` is in the array already and `b` is to come. */
  lemma EditsDone(before: seq<Json>, a: seq<Edit>, b: seq<Edit>)
    ensures (before + Composed(a)) + Composed(b) == before + Composed(a + b)
  {
    ComposedConcat(a, b);
    Regroup(before, Composed(a), Composed(b));
  }

  lemma OneEdit(before: seq<Json>, e: Edit, b: seq<Edit>)
    ensures (before + [ComposePatch(e)]) + Composed(b) == before + Composed([e] + b)
  {
    assert Composed([e]) == [ComposePatch(e)];
    EditsDone(before, [e], b);
  }

  lemma LeftoverEdits(path: CString, whole: Json, fs: seq<Json>, ts: seq<Json>, index: nat, cs: bool)
    requires (fs == [] || ts == []) && forall i :: 0 <= i < |fs| ==> fs[i] < whole
    ensures ItemEdits(path, whole, fs, ts, index, cs) == RemoveEdits(path, |fs|, index) + AppendEdits(path, ts)
  {
  }

  /** One turn of the walk over two element lists. */
  lemma ItemTurn(before: seq<Json>, path: CString, whole: Json, fs: seq<Json>, ts: seq<Json>, index: nat, cs: bool)
    requires fs != [] && ts != [] && forall i :: 0 <= i < |fs| ==> fs[i] < whole
    ensures before + Composed(ItemEdits(path, whole, fs, ts, index, cs))
         == (before + Composed(CreateEdits(path + [SLASH] + Decimal(index), fs[0], ts[0], cs)))
            + Composed(ItemEdits(path, whole, fs[1..], ts[1..], index + 1, cs))
  {
    EditsDone(before, CreateEdits(path + [SLASH] + Decimal(index), fs[0], ts[0], cs),
              ItemEdits(path, whole, fs[1..], ts[1..], index + 1, cs));
  }

  lemma ItemsLeftOver(before: seq<Json>, path: CString, whole: Json, fs: seq<Json>, ts: seq<Json>, index: nat, cs: bool)
    requires (fs == [] || ts == []) && forall i :: 0 <= i < |fs| ==> fs[i] < whole
    ensures before + Composed(ItemEdits(path, whole, fs, ts, index, cs))
         == (before + Composed(RemoveEdits(path, |fs|, index))) + Composed(AppendEdits(path, ts))
  {
    LeftoverEdits(path, whole, fs, ts, index, cs);
    EditsDone(before, RemoveEdits(path, |fs|, index), AppendEdits(path, ts));
  }

  /** One turn of the walk over two member lists. */
  lemma MemberTurn(before: seq<Json>, path: CString, whole: Json, fs: seq<Member>, ts: seq<Member>, cs: bool)
    requires (fs != [] || ts != []) && forall m :: m in fs ==> m.value < whole
    ensures var diff := Diff(fs, ts, cs);
      before + Composed(MemberEdits(path, whole, fs, ts, cs)) ==
        if diff == 0 then
          (before + Composed(CreateEdits(path + Token(fs[0].name), fs[0].value, ts[0].value, cs)))
          + Composed(MemberEdits(path, whole, fs[1..], ts[1..], cs))
        else if diff < 0 then
          (before + [ComposePatch(Edit(REMOVE, path + Token(fs[0].name), None))])
              + Composed(MemberEdits(path, whole, fs[1..], ts, cs))
        else
          (before + [ComposePatch(Edit(ADD, path + Token(ts[0].name), Some(ts[0].value)))])
          + Composed(MemberEdits(path, whole, fs, ts[1..], cs))
  {
    var diff := Diff(fs, ts, cs);
    if diff == 0 {
      EditsDone(before, CreateEdits(path + Token(fs[0].name), fs[0].value, ts[0].value, cs),
                MemberEdits(path, whole, fs[1..], ts[1..], cs));
    } else if diff < 0 {
      OneEdit(before, Edit(REMOVE, path + Token(fs[0].name), None), MemberEdits(path, whole, fs[1..], ts, cs));
    } else {
      OneEdit(before, Edit(ADD, path + Token(ts[0].name), Some(ts[0].value)),
              MemberEdits(path, whole, fs, ts[1..], cs));
    }
  }

  /** The array node that collects the patches. */
  class PatchArray {
    var patches: seq<Json>

    constructor ()
      ensures patches == []
    {
      patches := [];
    }

    /** compose_patch. */
    method Add(op: Operation, path: CString, suffix: Option<CString>, value: Option<Json>)
      modifies this
      ensures patches == old(patches)
           + [ComposePatch(Edit(op, if suffix.Some? then path + Token(suffix.value) else path, value))]
    {
      var full := path;
      if suffix.Some? {
        full := path + [SLASH] + Encode(suffix.value);
        assert full == path + Token(suffix.value);
      }
      var patch := [Member(OP, Text(OperationName(op))), Member(PATH, Text(full))];
      if value.Some? {
        patch := patch + [Member(VALUE, value.value)];
      } else {
        AppendNothing(patch);
      }
      patches := patches + [Object(patch)];
    }

    /** create_patches. */
    method CreatePatches(path: CString, from: Json, to: Json, cs: bool)
      modifies this
      ensures patches == old(patches) + Composed(CreateEdits(path, from, to, cs))
      decreases from, 1
    {
      if Kind(from) != Kind(to) {
        Add(REPLACE, path, None, Some(to));
        return;
      }
      match from
      case Number(n) =>
        if n != to.n { Add(REPLACE, path, None, Some(to)); }
      case Text(s) =>
        if s != to.text { Add(REPLACE, path, None, Some(to)); }
      case Array(items) =>
        CreateItemPatches(path, from, to, cs);
      case Object(members) =>
        CreateMemberPatches(path, from, to, cs);
      case _ =>
    }

    method CreateItemPatches(path: CString, from: Json, to: Json, cs: bool)
      requires from.Array? && to.Array?
      modifies this
      ensures patches == old(patches) + Composed(ItemEdits(path, from, from.items, to.items, 0, cs))
      decreases from, 0
    {
      var fs, ts, index := from.items, to.items, 0;
      ghost var all := patches + Composed(ItemEdits(path, from, fs, ts, index, cs));
      while fs != [] && ts != []
        invariant forall i :: 0 <= i < |fs| ==> fs[i] < from
        invariant patches + Composed(ItemEdits(path, from, fs, ts, index, cs)) == all
        decreases |fs|
      {
        ItemTurn(patches, path, from, fs, ts, index, cs);
        CreatePatches(path + [SLASH] + Decimal(index), fs[0], ts[0], cs);
        fs, ts, index := fs[1..], ts[1..], index + 1;
      }
      ItemsLeftOver(patches, path, from, fs, ts, index, cs);
      RemoveLeftovers(path, |fs|, index);
      AppendLeftovers(path, ts);
    }

    method RemoveLeftovers(path: CString, count: nat, index: nat)
      modifies this
      ensures patches == old(patches) + Composed(RemoveEdits(path, count, index))
    {
      var i := 0;
      while i < count
        invariant 0 <= i <= count
        invariant patches + Composed(RemoveEdits(path, count - i, index))
             == old(patches) + Composed(RemoveEdits(path, count, index))
      {
        OneEdit(patches, Edit(REMOVE, path + Token(Decimal(index)), None), RemoveEdits(path, count - i - 1, index));
        Add(REMOVE, path, Some(Decimal(index)), None);
        i := i + 1;
      }
      AppendNothing(patches);
    }

    method AppendLeftovers(path: CString, items: seq<Json>)
      modifies this
      ensures patches == old(patches) + Composed(AppendEdits(path, items))
    {
      var ts := items;
      while ts != []
        invariant patches + Composed(AppendEdits(path, ts)) == old(patches) + Composed(AppendEdits(path, items))
        decreases |ts|
      {
        OneEdit(patches, Edit(ADD, path + Token(DASH), Some(ts[0])), AppendEdits(path, ts[1..]));
        Add(ADD, path, Some(DASH), Some(ts[0]));
        ts := ts[1..];
      }
      AppendNothing(patches);
    }

    method CreateMemberPatches(path: CString, from: Json, to: Json, cs: bool)
      requires from.Object? && to.Object?
      modifies this
      ensures patches == old(patches)
           + Composed(MemberEdits(path, from, SortMembers(from.members, cs), SortMembers(to.members, cs), cs))
      decreases from, 0
    {
      var fs, ts := SortMembers(from.members, cs), SortMembers(to.members, cs);
      SortedParts(from, cs);
      while fs != [] || ts != []
        invariant forall m :: m in fs ==> m.value < from
        invariant patches + Composed(MemberEdits(path, from, fs, ts, cs))
               == old(patches) + Composed(MemberEdits(path, from, SortMembers(from.members, cs),
                                                      SortMembers(to.members, cs), cs))
        decreases |fs| + |ts|
      {
        var diff;
        if fs == [] {
          diff := 1;
        } else if ts == [] {
          diff := -1;
        } else {
          diff := CompareStrings(fs[0].name, ts[0].name, cs);
        }
        MemberTurn(patches, path, from, fs, ts, cs);
        if diff == 0 {
          CreatePatches(path + Token(fs[0].name), fs[0].value, ts[0].value, cs);
          fs, ts := fs[1..], ts[1..];
        } else if diff < 0 {
          Add(REMOVE, path, Some(fs[0].name), None);
          fs := fs[1..];
        } else {
          Add(ADD, path, Some(ts[0].name), Some(ts[0].value));
          ts := ts[1..];
        }
      }
    }
  }

  // ----- applying edits -----

  function ApplyEdit(doc: Json, e: Edit, cs: bool): (int, Json) {
    ApplyOperation(doc, e.op, e.path, None, e.value, cs)
  }

  function ApplyEdits(doc: Json, edits: seq<Edit>, cs: bool): (int, Json)
    decreases |edits|
  {
    if edits == [] then (0, doc)
    else
      var (status, next) := ApplyEdit(doc, edits[0], cs);
      if status != 0 then (status, next) else ApplyEdits(next, edits[1..], cs)
  }

  /** The edits succeed on `doc` and leave `end`. */
  predicate Yields(doc: Json, edits: seq<Edit>, end: Json, cs: bool) {
    ApplyEdits(doc, edits, cs) == (0, end)
  }

  /** The four field names are told apart in both modes. */
  lemma FieldNamesDiffer(cs: bool)
    ensures var o, p, f, v := Key(OP, cs), Key(PATH, cs), Key(FROM, cs), Key(VALUE, cs);
      o != p && o != f && o != v && p != f && p != v && f != v
  {
    KeyAt(OP, cs); KeyAt(PATH, cs); KeyAt(FROM, cs); KeyAt(VALUE, cs);
    assert Key(PATH, cs)[0] != Key(FROM, cs)[0];
    assert Key(PATH, cs)[0] != Key(VALUE, cs)[0];
    assert Key(VALUE, cs)[0] != Key(FROM, cs)[0];
  }

  lemma {:induction false} FieldPlaces(m: seq<Member>, op: CString, path: CString, from: CString, value: CString,
                                       cs: bool)
    requires 2 <= |m| <= 3 && m[0].name == op && m[1].name == path && (|m| == 3 ==> m[2].name == value)
    requires var o, p, f, v := Key(op, cs), Key(path, cs), Key(from, cs), Key(value, cs);
      o != p && o != f && o != v && p != f && p != v && f != v
    ensures Find(m, op, cs) == 0 && Find(m, path, cs) == 1 && Find(m, from, cs) == |m| && Find(m, value, cs) == 2
  {
    FindIs(m, op, cs, 0);
    FindIs(m, path, cs, 1);
    FindIs(m, from, cs, |m|);
    FindIs(m, value, cs, 2);
  }

  lemma FieldsOfComposed(e: Edit, cs: bool)
    requires Generated(e.op)
    ensures var p := ComposePatch(e);
      GetObjectItem(p, PATH, cs) == Some(Text(e.path)) && GetObjectItem(p, OP, cs) == Some(Text(OperationName(e.op)))
      && GetObjectItem(p, FROM, cs) == None && GetObjectItem(p, VALUE, cs) == e.value
    ensures DecodeOperation(OperationName(e.op)) == e.op
  {
    var m := ComposePatch(e).members;
    FieldNamesDiffer(cs);
    FieldPlaces(m, OP, PATH, FROM, VALUE, cs);
    DistinctOperationNames(e.op);
  }

  lemma DistinctOperationNames(op: Operation)
    requires Generated(op)
    ensures DecodeOperation(OperationName(op)) == op
  {
    assert OperationName(ADD)[0] != OperationName(REMOVE)[0];
    assert |OperationName(REMOVE)| < |OperationName(REPLACE)|;
  }

  predicate AllGenerated(edits: seq<Edit>) {
    forall i :: 0 <= i < |edits| ==> Generated(edits[i].op)
  }

  /** Applying the patch objects is applying the edits they were composed from. */
  lemma {:induction false} ApplyComposed(doc: Json, edits: seq<Edit>, cs: bool)
    requires AllGenerated(edits)
    ensures ApplyAll(doc, Composed(edits), cs) == ApplyEdits(doc, edits, cs)
    decreases |edits|
  {
    if edits != [] {
      FieldsOfComposed(edits[0], cs);
      assert Composed(edits)[0] == ComposePatch(edits[0]);
      assert Composed(edits)[1..] == Composed(edits[1..]);
      var (status, next) := ApplyEdit(doc, edits[0], cs);
      ApplyComposed(next, edits[1..], cs);
    }
  }

  lemma {:induction false} ApplyInTwo(doc: Json, a: seq<Edit>, b: seq<Edit>, cs: bool)
    ensures ApplyEdits(doc, a + b, cs) == var (status, next) := ApplyEdits(doc, a, cs);
      if status != 0 then (status, next) else ApplyEdits(next, b, cs)
    decreases |a|
  {
    if a == [] {
      assert a + b == b;
    } else {
      assert (a + b)[1..] == a[1..] + b;
      ApplyInTwo(ApplyEdit(doc, a[0], cs).1, a[1..], b, cs);
    }
  }

  /** Edits that take one document to another, and more that take it on. */
  lemma ApplyBoth(doc: Json, a: seq<Edit>, middle: Json, b: seq<Edit>, end: Json, cs: bool)
    requires Yields(doc, a, middle, cs) && Yields(middle, b, end, cs)
    ensures Yields(doc, a + b, end, cs)
  {
    ApplyInTwo(doc, a, b, cs);
  }

  // ----- edits of a subtree are edits of the subtree alone, moved below its path -----

  function Under(path: CString, edits: seq<Edit>): (r: seq<Edit>)
    ensures |r| == |edits|
    ensures forall i {:trigger r[i]} :: 0 <= i < |r| ==> r[i] == edits[i].(path := path + edits[i].path)
  {
    if edits == [] then [] else [edits[0].(path := path + edits[0].path)] + Under(path, edits[1..])
  }

  lemma UnderAppend(path: CString, a: seq<Edit>, b: seq<Edit>)
    ensures Under(path, a + b) == Under(path, a) + Under(path, b)
  {
  }

  lemma UnderTwice(p: CString, q: CString, edits: seq<Edit>)
    ensures Under(p, Under(q, edits)) == Under(p + q, edits)
  {
    forall i | 0 <= i < |edits| ensures Under(p, Under(q, edits))[i] == Under(p + q, edits)[i] {
      assert p + (q + edits[i].path) == (p + q) + edits[i].path;
    }
  }

  lemma UnderOne(path: CString, q: CString, op: Operation, value: Option<Json>)
    ensures Under(path, [Edit(op, q, value)]) == [Edit(op, path + q, value)]
  {
  }

  /** The path only travels along: edits for `path` are the edits for the root, moved. */
  lemma {:induction false} EditsMove(path: CString, from: Json, to: Json, cs: bool)
    ensures CreateEdits(path, from, to, cs) == Under(path, CreateEdits([], from, to, cs))
    decreases from, 1, 0
  {
    assert path + [] == path;
    if Kind(from) == Kind(to) {
      match from
      case Array(items) => ItemEditsMove(path, from, items, to.items, 0, cs);
      case Object(members) => MemberEditsMove(path, from, SortMembers(members, cs), SortMembers(to.members, cs), cs);
      case _ => UnderOne(path, [], REPLACE, Some(to));
    } else {
      UnderOne(path, [], REPLACE, Some(to));
    }
  }

  lemma {:induction false} ItemEditsMove(path: CString, whole: Json, fs: seq<Json>, ts: seq<Json>, index: nat, cs: bool)
    requires forall i :: 0 <= i < |fs| ==> fs[i] < whole
    ensures ItemEdits(path, whole, fs, ts, index, cs) == Under(path, ItemEdits([], whole, fs, ts, index, cs))
    decreases whole, 0, |fs|
  {
    if fs != [] && ts != [] {
      var step := [SLASH] + Decimal(index);
      assert path + [SLASH] + Decimal(index) == path + step;
      assert [] + [SLASH] + Decimal(index) == step;
      SubEditsMove(path, step, whole, fs[0], ts[0], cs);
      ItemEditsMove(path, whole, fs[1..], ts[1..], index + 1, cs);
      UnderAppend(path, CreateEdits(step, fs[0], ts[0], cs), ItemEdits([], whole, fs[1..], ts[1..], index + 1, cs));
    } else {
      RemoveEditsMove(path, |fs|, index);
      AppendEditsMove(path, ts);
      UnderAppend(path, RemoveEdits([], |fs|, index), AppendEdits([], ts));
    }
  }

  lemma {:induction false} SubEditsMove(path: CString, step: CString, whole: Json, f: Json, t: Json, cs: bool)
    requires f < whole
    ensures CreateEdits(path + step, f, t, cs) == Under(path, CreateEdits(step, f, t, cs))
    decreases whole, 0, 0
  {
    EditsMove(path + step, f, t, cs);
    EditsMove(step, f, t, cs);
    UnderTwice(path, step, CreateEdits([], f, t, cs));
  }

  lemma {:induction false} RemoveEditsMove(path: CString, count: nat, index: nat)
    ensures RemoveEdits(path, count, index) == Under(path, RemoveEdits([], count, index))
  {
    if count > 0 {
      RemoveEditsMove(path, count - 1, index);
      assert [] + Token(Decimal(index)) == Token(Decimal(index));
      UnderOne(path, Token(Decimal(index)), REMOVE, None);
      UnderAppend(path, [Edit(REMOVE, Token(Decimal(index)), None)], RemoveEdits([], count - 1, index));
    }
  }

  lemma {:induction false} AppendEditsMove(path: CString, ts: seq<Json>)
    ensures AppendEdits(path, ts) == Under(path, AppendEdits([], ts))
  {
    if ts != [] {
      AppendEditsMove(path, ts[1..]);
      assert [] + Token(DASH) == Token(DASH);
      UnderOne(path, Token(DASH), ADD, Some(ts[0]));
      UnderAppend(path, [Edit(ADD, Token(DASH), Some(ts[0]))], AppendEdits([], ts[1..]));
    }
  }

  lemma {:induction false} MemberEditsMove(path: CString, whole: Json, fs: seq<Member>, ts: seq<Member>, cs: bool)
    requires forall m :: m in fs ==> m.value < whole
    ensures MemberEdits(path, whole, fs, ts, cs) == Under(path, MemberEdits([], whole, fs, ts, cs))
    decreases whole, 0, |fs| + |ts|
  {
    if fs != [] || ts != [] {
      var diff := Diff(fs, ts, cs);
      if diff == 0 {
        var step := Token(fs[0].name);
        assert [] + step == step;
        SubEditsMove(path, step, whole, fs[0].value, ts[0].value, cs);
        MemberEditsMove(path, whole, fs[1..], ts[1..], cs);
        UnderAppend(path, CreateEdits(step, fs[0].value, ts[0].value, cs),
                    MemberEdits([], whole, fs[1..], ts[1..], cs));
      } else if diff < 0 {
        var step := Token(fs[0].name);
        assert [] + step == step;
        MemberEditsMove(path, whole, fs[1..], ts, cs);
        UnderOne(path, step, REMOVE, None);
        UnderAppend(path, [Edit(REMOVE, step, None)], MemberEdits([], whole, fs[1..], ts, cs));
      } else {
        var step := Token(ts[0].name);
        assert [] + step == step;
        MemberEditsMove(path, whole, fs, ts[1..], cs);
        UnderOne(path, step, ADD, Some(ts[0].value));
        UnderAppend(path, [Edit(ADD, step, Some(ts[0].value))], MemberEdits([], whole, fs, ts[1..], cs));
      }
    }
  }

  // ----- the shape of generated edits -----

  predicate Deep(edits: seq<Edit>) {
    forall i :: 0 <= i < |edits| ==> Generated(edits[i].op) && edits[i].path != [] && edits[i].path[0] == SLASH
  }

  /** The edits for the pair replace it as a whole. */
  predicate Replaced(from: Json, to: Json) {
    || Kind(from) != Kind(to)
    || (from.Number? && to.Number? && from.n != to.n)
    || (from.Text? && to.Text? && from.text != to.text)
  }

  /** One replacement of the root, or else only edits strictly below the root. */
  lemma EditsShape(from: Json, to: Json, cs: bool)
    ensures var e := CreateEdits([], from, to, cs);
      if Replaced(from, to) then e == [Edit(REPLACE, [], Some(to))] else Deep(e)
    decreases from, 1, 0
  {
    if Kind(from) == Kind(to) {
      match from
      case Array(items) => ItemEditsDeep(from, items, to.items, 0, cs);
      case Object(members) => MemberEditsDeep(from, SortMembers(members, cs), SortMembers(to.members, cs), cs);
      case _ =>
    }
  }

  lemma UnderDeep(step: CString, from: Json, to: Json, cs: bool)
    requires step != [] && step[0] == SLASH
    ensures Deep(CreateEdits(step, from, to, cs))
    decreases from, 2, 0
  {
    EditsMove(step, from, to, cs);
    EditsShape(from, to, cs);
  }

  lemma {:induction false} ItemEditsDeep(whole: Json, fs: seq<Json>, ts: seq<Json>, index: nat, cs: bool)
    requires forall i :: 0 <= i < |fs| ==> fs[i] < whole
    ensures Deep(ItemEdits([], whole, fs, ts, index, cs))
    decreases whole, 0, |fs|
  {
    if fs != [] && ts != [] {
      UnderDeep([] + [SLASH] + Decimal(index), fs[0], ts[0], cs);
      ItemEditsDeep(whole, fs[1..], ts[1..], index + 1, cs);
    } else {
      RemoveEditsDeep(|fs|, index);
      AppendEditsDeep(ts);
    }
  }

  lemma {:induction false} RemoveEditsDeep(count: nat, index: nat)
    ensures Deep(RemoveEdits([], count, index))
  {
    if count > 0 { RemoveEditsDeep(count - 1, index); }
  }

  lemma {:induction false} AppendEditsDeep(ts: seq<Json>)
    ensures Deep(AppendEdits([], ts))
  {
    if ts != [] { AppendEditsDeep(ts[1..]); }
  }

  lemma {:induction false} MemberEditsDeep(whole: Json, fs: seq<Member>, ts: seq<Member>, cs: bool)
    requires forall m :: m in fs ==> m.value < whole
    ensures Deep(MemberEdits([], whole, fs, ts, cs))
    decreases whole, 0, |fs| + |ts|
  {
    if fs != [] || ts != [] {
      var diff := Diff(fs, ts, cs);
      if diff == 0 {
        UnderDeep([] + Token(fs[0].name), fs[0].value, ts[0].value, cs);
        MemberEditsDeep(whole, fs[1..], ts[1..], cs);
      } else if diff < 0 {
        MemberEditsDeep(whole, fs[1..], ts, cs);
      } else {
        MemberEditsDeep(whole, fs, ts[1..], cs);
      }
    }
  }

  /** Edits below a child change that child as they would change it alone. */
  lemma {:induction false} ApplyUnder(t: Json, step: CString, i: nat, edits: seq<Edit>, cs: bool)
    requires ChildStep(t, step, i, cs) && Deep(edits)
    ensures ApplyEdits(t, Under(step, edits), cs)
         == var (status, r) := ApplyEdits(Child(t, i), edits, cs); (status, WithChild(t, i, r))
    decreases |edits|
  {
    if edits == [] {
      WithChildSame(t, i);
    } else {
      var e := edits[0];
      ApplyBelow(t, step, i, e.op, e.path, e.value, cs);
      assert Under(step, edits)[0] == e.(path := step + e.path);
      assert Under(step, edits)[1..] == Under(step, edits[1..]);
      var (status, v) := ApplyEdit(Child(t, i), e, cs);
      ChildStepKept(t, step, i, v, cs);
      ApplyUnder(WithChild(t, i, v), step, i, edits[1..], cs);
      WithChildTwice(t, i, v, ApplyEdits(v, edits[1..], cs).1);
    }
  }

  // ----- nothing to do -----

  /** There are no edits exactly where compare_json finds no difference. */
  lemma {:induction false} NoEdits(path: CString, from: Json, to: Json, cs: bool)
    ensures CreateEdits(path, from, to, cs) == [] <==> CompareJson(from, to, cs)
    decreases from, 1, 0
  {
    if from.Array? && to.Array? {
      NoItemEdits(path, from, from.items, to.items, 0, cs);
    } else if from.Object? && to.Object? {
      SortedParts(from, cs);
      NoMemberEdits(path, from, SortMembers(from.members, cs), SortMembers(to.members, cs), cs);
    }
  }

  lemma {:induction false} NoItemEdits(path: CString, whole: Json, fs: seq<Json>, ts: seq<Json>, index: nat, cs: bool)
    requires forall i :: 0 <= i < |fs| ==> fs[i] < whole
    ensures ItemEdits(path, whole, fs, ts, index, cs) == [] <==> CompareItems(whole, fs, ts, cs)
    decreases whole, 0, |fs|
  {
    if fs != [] && ts != [] {
      NoEdits(path + [SLASH] + Decimal(index), fs[0], ts[0], cs);
      NoItemEdits(path, whole, fs[1..], ts[1..], index + 1, cs);
    }
  }

  lemma {:induction false} NoMemberEdits(path: CString, whole: Json, fs: seq<Member>, ts: seq<Member>, cs: bool)
    requires forall m :: m in fs ==> m.value < whole
    ensures MemberEdits(path, whole, fs, ts, cs) == [] <==> CompareMembers(whole, fs, ts, cs)
    decreases whole, 0, |fs| + |ts|
  {
    if fs != [] && ts != [] && Diff(fs, ts, cs) == 0 {
      NoEdits(path + Token(fs[0].name), fs[0].value, ts[0].value, cs);
      NoMemberEdits(path, whole, fs[1..], ts[1..], cs);
    }
  }

  /** The generated patch is empty if and only if the two trees already mean the same, raw texts apart. */
  lemma EmptyPatchExactly(from: Json, to: Json, cs: bool)
    requires Distinct(from, cs) && Distinct(to, cs)
    ensures GeneratePatches(from, to, cs) == Array([]) <==> SameButRaw(Denote(from, cs), Denote(to, cs))
  {
    NoEdits([], from, to, cs);
    CompareDecides(from, to, cs);
  }
}
