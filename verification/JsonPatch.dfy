// apply_patch: one JSON Patch operation (RFC 6902) on a document, and the loop over a patch array.
module JsonPatch {
  import opened Wrappers
  import opened Sequences
  import opened CText
  import opened JsonTree
  import opened JsonPointer
  import opened Comparison

  datatype Operation = INVALID | ADD | REMOVE | REPLACE | MOVE | COPY | TEST

  const OP: CString := [Ascii('o'), Ascii('p')]
  const PATH: CString := [Ascii('p'), Ascii('a'), Ascii('t'), Ascii('h')]
  const FROM: CString := [Ascii('f'), Ascii('r'), Ascii('o'), Ascii('m')]
  const VALUE: CString := [Ascii('v'), Ascii('a'), Ascii('l'), Ascii('u'), Ascii('e')]
  const DASH: CString := [MINUS]

  function OperationName(op: Operation): CString {
    match op
    case ADD => [Ascii('a'), Ascii('d'), Ascii('d')]
    case REMOVE => [Ascii('r'), Ascii('e'), Ascii('m'), Ascii('o'), Ascii('v'), Ascii('e')]
    case REPLACE => [Ascii('r'), Ascii('e'), Ascii('p'), Ascii('l'), Ascii('a'), Ascii('c'), Ascii('e')]
    case MOVE => [Ascii('m'), Ascii('o'), Ascii('v'), Ascii('e')]
    case COPY => [Ascii('c'), Ascii('o'), Ascii('p'), Ascii('y')]
    case TEST => [Ascii('t'), Ascii('e'), Ascii('s'), Ascii('t')]
    case INVALID => []
  }

  /** The chain of `strcmp` tests in decode_patch_operation. */
  function DecodeOperation(name: CString): Operation {
    if name == OperationName(ADD) then ADD
    else if name == OperationName(REMOVE) then REMOVE
    else if name == OperationName(REPLACE) then REPLACE
    else if name == OperationName(MOVE) then MOVE
    else if name == OperationName(COPY) then COPY
    else if name == OperationName(TEST) then TEST
    else INVALID
  }

  /** get_object_item: children of anything but an object have no name. */
  function GetObjectItem(j: Json, name: CString, cs: bool): Option<Json> {
    if j.Object? then
      var i := Find(j.members, name, cs);
      if i < |j.members| then Some(j.members[i].value) else None
    else None
  }

  /** cJSON_DeleteItemFromObject and its case-sensitive form: the first match goes, if there is one. */
  function RemoveKey(members: seq<Member>, name: CString, cs: bool): seq<Member> {
    var i := Find(members, name, cs);
    if i < |members| then RemoveAt(members, i) else members
  }

  /** `strrchr(path, '/')`. */
  function LastSlash(path: CString): (r: Option<nat>)
    ensures r.Some? ==> r.value < |path| && path[r.value] == SLASH
    ensures r.None? <==> SLASH !in path
  {
    if path == [] then None
    else if path[|path| - 1] == SLASH then Some(|path| - 1)
    else
      assert path == path[..|path| - 1] + [path[|path| - 1]];
      LastSlash(path[..|path| - 1])
  }

  /** What detach_path takes out of a container; names are looked up ignoring case in both modes. */
  function DetachChild(parent: Json, child: CString): Option<(Json, Json)> {
    match parent
    case Array(items) =>
      var index := DecodeIndex(child);
      if index.None? || index.value >= |items| then None
      else Some((items[index.value], Array(RemoveAt(items, index.value))))
    case Object(members) =>
      var i := Find(members, child, false);
      if i == |members| then None
      else Some((members[i].value, Object(RemoveAt(members, i))))
    case _ => None
  }

  /** detach_path: the item taken out and the document without it. */
  function DetachPath(doc: Json, path: CString, cs: bool): Option<(Json, Json)> {
    var slash := LastSlash(path);
    if slash.None? then None
    else DetachAt(doc, Locate(doc, path[..slash.value], cs), DecodeInPlace(path[slash.value + 1..]))
  }

  function DetachAt(doc: Json, loc: Option<Location>, child: CString): Option<(Json, Json)>
    requires loc.Some? ==> ValidLocation(doc, loc.value)
  {
    if loc.None? then None
    else
      var r := DetachChild(Sub(doc, loc.value), child);
      if r.None? then None else Some((r.value.0, Put(doc, loc.value, r.value.1)))
  }

  /** What the add step does to the container it found. */
  function AddChild(parent: Json, child: CString, value: Json, cs: bool): (int, Json) {
    match parent
    case Array(items) =>
      if child == DASH then (0, Array(items + [value]))
      else
        var index := DecodeIndex(child);
        if index.None? then (11, parent)
        else if index.value > |items| then (10, parent)
        else (0, Array(InsertAt(items, index.value, value)))
    case Object(members) => (0, Object(RemoveKey(members, child, cs) + [Member(child, value)]))
    case _ => (9, parent)
  }

  function AddPath(doc: Json, path: CString, value: Json, cs: bool): (int, Json) {
    var slash := LastSlash(path);
    if slash.None? then (9, doc)
    else AddAt(doc, Locate(doc, path[..slash.value], cs), DecodeInPlace(path[slash.value + 1..]), value, cs)
  }

  function AddAt(doc: Json, loc: Option<Location>, child: CString, value: Json, cs: bool): (int, Json)
    requires loc.Some? ==> ValidLocation(doc, loc.value)
  {
    if loc.None? then (9, doc)
    else
      var (status, parent) := AddChild(Sub(doc, loc.value), child, value, cs);
      (status, Put(doc, loc.value, parent))
  }

  /** `valuestring` of a node. */
  function ValueString(j: Json): Option<CString> {
    match j
    case Text(s) => Some(s)
    case Raw(s) => Some(s)
    case _ => None
  }

  /** apply_patch once the fields are read: the status and the document left behind. */
  function ApplyOperation(doc: Json, op: Operation, path: CString, from: Option<Json>, value: Option<Json>,
                          cs: bool): (int, Json) {
    match op
    case INVALID => (3, doc)
    case TEST =>
      var item := Item(doc, path, cs);
      (if item.Some? && value.Some? && CompareJson(item.value, value.value, cs) then 0 else 1, doc)
    case REMOVE =>
      if path == [] then (0, Invalid)
      else
        var taken := DetachPath(doc, path, cs);
        if taken.None? then (13, doc) else (0, taken.value.1)
    case REPLACE =>
      if path == [] then (if value.None? then (7, doc) else (0, value.value))
      else
        var taken := DetachPath(doc, path, cs);
        if taken.None? then (13, doc)
        else if value.None? then (7, taken.value.1)
        else AddPath(taken.value.1, path, value.value, cs)
    case ADD =>
      if value.None? then (7, doc)
      else if path == [] then (0, value.value)
      else AddPath(doc, path, value.value, cs)
    case MOVE =>
      if from.None? then (4, doc)
      else if ValueString(from.value).None? then (5, doc)
      else
        var taken := DetachPath(doc, ValueString(from.value).value, cs);
        if taken.None? then (5, doc) else AddPath(taken.value.1, path, taken.value.0, cs)
    case COPY =>
      if from.None? then (4, doc)
      else if ValueString(from.value).None? then (5, doc)
      else
        var item := Item(doc, ValueString(from.value).value, cs);
        if item.None? then (5, doc) else AddPath(doc, path, item.value, cs)
  }

  /** apply_patch: the status and the document left behind. */
  function ApplyPatch(doc: Json, patch: Json, cs: bool): (int, Json) {
    var path := GetObjectItem(patch, PATH, cs);
    if path.None? || !path.value.Text? then (2, doc)
    else
      var op := GetObjectItem(patch, OP, cs);
      ApplyOperation(doc, if op.Some? && op.value.Text? then DecodeOperation(op.value.text) else INVALID,
                     path.value.text, GetObjectItem(patch, FROM, cs), GetObjectItem(patch, VALUE, cs), cs)
  }

  /** All patches in turn, up to the first that fails. */
  function ApplyAll(doc: Json, patches: seq<Json>, cs: bool): (int, Json)
    decreases |patches|
  {
    if patches == [] then (0, doc)
    else
      var (status, next) := ApplyPatch(doc, patches[0], cs);
      if status != 0 then (status, next) else ApplyAll(next, patches[1..], cs)
  }

  /** The tree a patch array is applied to, changed in place. */
  class Document {
    var root: Json

    constructor (root: Json)
      ensures this.root == root
    {
      this.root := root;
    }

    /** cJSONUtils_ApplyPatches and its case-sensitive form. */
    method ApplyPatches(patches: Json, cs: bool) returns (status: int)
      modifies this
      ensures !patches.Array? ==> status == 1 && root == old(root)
      ensures patches.Array? ==> (status, root) == ApplyAll(old(root), patches.items, cs)
    {
      if !patches.Array? {
        return 1;
      }
      var i := 0;
      while i < |patches.items|
        invariant 0 <= i <= |patches.items|
        invariant ApplyAll(root, patches.items[i..], cs) == ApplyAll(old(root), patches.items, cs)
      {
        var result := ApplyPatch(root, patches.items[i], cs);
        status, root := result.0, result.1;
        if status != 0 {
          return;
        }
        assert patches.items[i..][1..] == patches.items[i + 1..];
        i := i + 1;
      }
      status := 0;
    }
  }

  // ----- an operation below a child is the operation on that child -----

  lemma {:induction false} LastSlashAppend(a: CString, q: CString)
    requires SLASH in q
    ensures LastSlash(q).Some? && LastSlash(a + q) == Some(|a| + LastSlash(q).value)
  {
    var p := a + q;
    if q[|q| - 1] != SLASH {
      assert q == q[..|q| - 1] + [q[|q| - 1]];
      LastSlashAppend(a, q[..|q| - 1]);
      assert p[..|p| - 1] == a + q[..|q| - 1];
    }
  }

  lemma {:induction false} LastSlashOfToken(a: CString, token: CString)
    requires SLASH !in token
    ensures LastSlash(a + [SLASH] + token) == Some(|a|)
  {
    var p := a + [SLASH] + token;
    if token == [] {
      assert p == a + [SLASH];
    } else {
      LastSlashOfToken(a, token[..|token| - 1]);
      assert p[..|p| - 1] == a + [SLASH] + token[..|token| - 1];
    }
  }

  /** The operations a generated patch uses. */
  predicate Generated(op: Operation) {
    op.ADD? || op.REMOVE? || op.REPLACE?
  }

  /** `step` selects child `i` of `t`, whatever follows. */
  ghost predicate Selects(t: Json, step: CString, i: nat, cs: bool) {
    && (t.Array? || t.Object?) && i < ChildCount(t) && step != [] && step[0] == SLASH
    && forall p: CString {:trigger Locate(t, step + p, cs)} :: TokenEnd(p) ==>
         Locate(t, step + p, cs) == Below(i, Locate(Child(t, i), p, cs))
  }

  function Child(t: Json, i: nat): Json
    requires i < ChildCount(t)
  {
    if t.Array? then t.items[i] else t.members[i].value
  }

  /** The container with another child value at place `i`. */
  function WithChild(t: Json, i: nat, v: Json): Json
    requires i < ChildCount(t)
  {
    if t.Array? then Array(t.items[i := v]) else Object(t.members[i := Member(t.members[i].name, v)])
  }

  lemma SelectsItem(items: seq<Json>, i: nat, cs: bool)
    requires i < |items| && i < SizeMax
    ensures Selects(Array(items), [SLASH] + Decimal(i), i, cs)
  {
    forall p: CString | TokenEnd(p)
      ensures Locate(Array(items), [SLASH] + Decimal(i) + p, cs) == Below(i, Locate(items[i], p, cs))
    {
      LocateItem(items, i, p, cs);
    }
  }

  lemma SelectsMember(members: seq<Member>, name: CString, cs: bool)
    requires Find(members, name, cs) < |members|
    ensures Selects(Object(members), [SLASH] + Encode(name), Find(members, name, cs), cs)
  {
    forall p: CString | TokenEnd(p)
      ensures var i := Find(members, name, cs);
        Locate(Object(members), [SLASH] + Encode(name) + p, cs) == Below(i, Locate(members[i].value, p, cs))
    {
      LocateMember(members, name, p, cs);
    }
  }

  lemma PutBelow(t: Json, i: nat, loc: Location, v: Json)
    requires i < ChildCount(t) && ValidLocation(Child(t, i), loc)
    ensures ValidLocation(t, [i] + loc)
    ensures Sub(t, [i] + loc) == Sub(Child(t, i), loc)
    ensures Put(t, [i] + loc, v) == WithChild(t, i, Put(Child(t, i), loc, v))
  {
    assert ([i] + loc)[1..] == loc;
  }

  /** The split at the last slash falls inside `q`. */
  lemma SplitBelow(step: CString, q: CString)
    requires q != [] && q[0] == SLASH
    ensures LastSlash(q).Some?
    ensures var s := LastSlash(q).value;
      LastSlash(step + q) == Some(|step| + s) && TokenEnd(q[..s])
      && (step + q)[..|step| + s] == step + q[..s] && (step + q)[|step| + s + 1..] == q[s + 1..]
  {
    LastSlashAppend(step, q);
  }

  lemma DetachBelow(t: Json, step: CString, i: nat, q: CString, cs: bool)
    requires Selects(t, step, i, cs) && q != [] && q[0] == SLASH
    ensures DetachPath(t, step + q, cs) == var r := DetachPath(Child(t, i), q, cs);
      if r.None? then None else Some((r.value.0, WithChild(t, i, r.value.1)))
  {
    SplitBelow(step, q);
    var s := LastSlash(q).value;
    DetachSplit(t, step + q, |step| + s, step + q[..s], q[s + 1..], cs);
    DetachSplit(Child(t, i), q, s, q[..s], q[s + 1..], cs);
    LocateBelow(t, step, i, q[..s], cs);
    DetachAtBelow(t, i, Locate(Child(t, i), q[..s], cs), DecodeInPlace(q[s + 1..]));
  }

  lemma LocateBelow(t: Json, step: CString, i: nat, p: CString, cs: bool)
    requires Selects(t, step, i, cs) && TokenEnd(p)
    ensures Locate(t, step + p, cs) == Below(i, Locate(Child(t, i), p, cs))
  {
  }

  lemma DetachSplit(t: Json, path: CString, slash: nat, parent: CString, child: CString, cs: bool)
    requires LastSlash(path) == Some(slash) && parent == path[..slash] && child == path[slash + 1..]
    ensures DetachPath(t, path, cs) == DetachAt(t, Locate(t, parent, cs), DecodeInPlace(child))
  {
  }

  lemma DetachAtBelow(t: Json, i: nat, loc: Option<Location>, child: CString)
    requires i < ChildCount(t) && (loc.Some? ==> ValidLocation(Child(t, i), loc.value))
    ensures loc.Some? ==> ValidLocation(t, [i] + loc.value)
    ensures DetachAt(t, Below(i, loc), child) == var r := DetachAt(Child(t, i), loc, child);
      if r.None? then None else Some((r.value.0, WithChild(t, i, r.value.1)))
  {
    if loc.Some? {
      PutBelow(t, i, loc.value, Null);
      var r := DetachChild(Sub(Child(t, i), loc.value), child);
      if r.Some? { PutBelow(t, i, loc.value, r.value.1); }
    }
  }

  lemma AddBelow(t: Json, step: CString, i: nat, q: CString, v: Json, cs: bool)
    requires Selects(t, step, i, cs) && q != [] && q[0] == SLASH
    ensures AddPath(t, step + q, v, cs)
         == var (status, r) := AddPath(Child(t, i), q, v, cs); (status, WithChild(t, i, r))
  {
    SplitBelow(step, q);
    var s := LastSlash(q).value;
    AddSplit(t, step + q, |step| + s, step + q[..s], q[s + 1..], v, cs);
    AddSplit(Child(t, i), q, s, q[..s], q[s + 1..], v, cs);
    LocateBelow(t, step, i, q[..s], cs);
    AddAtBelow(t, i, Locate(Child(t, i), q[..s], cs), DecodeInPlace(q[s + 1..]), v, cs);
  }

  lemma AddAtBelow(t: Json, i: nat, loc: Option<Location>, child: CString, v: Json, cs: bool)
    requires i < ChildCount(t) && (loc.Some? ==> ValidLocation(Child(t, i), loc.value))
    ensures loc.Some? ==> ValidLocation(t, [i] + loc.value)
    ensures AddAt(t, Below(i, loc), child, v, cs)
         == var (status, r) := AddAt(Child(t, i), loc, child, v, cs); (status, WithChild(t, i, r))
  {
    if loc.Some? {
      PutBelow(t, i, loc.value, AddChild(Sub(Child(t, i), loc.value), child, v, cs).1);
    } else {
      WithChildSame(t, i);
    }
  }

  lemma AddSplit(t: Json, path: CString, slash: nat, parent: CString, child: CString, v: Json, cs: bool)
    requires LastSlash(path) == Some(slash) && parent == path[..slash] && child == path[slash + 1..]
    ensures AddPath(t, path, v, cs) == AddAt(t, Locate(t, parent, cs), DecodeInPlace(child), v, cs)
  {
  }

  lemma WithChildSame(t: Json, i: nat)
    requires i < ChildCount(t)
    ensures WithChild(t, i, Child(t, i)) == t
  {
  }

  /** A child step together with the child it selects, as the generator writes them. */
  ghost predicate ChildStep(t: Json, step: CString, i: nat, cs: bool) {
    match t
    case Array(items) => i < |items| && i < SizeMax && step == [SLASH] + Decimal(i)
    case Object(members) =>
      i < |members| && exists name :: Find(members, name, cs) == i && step == [SLASH] + Encode(name)
    case _ => false
  }

  lemma ChildStepSelects(t: Json, step: CString, i: nat, cs: bool)
    requires ChildStep(t, step, i, cs)
    ensures Selects(t, step, i, cs)
  {
    match t
    case Array(items) => SelectsItem(items, i, cs);
    case Object(members) =>
      var name :| Find(members, name, cs) == i && step == [SLASH] + Encode(name);
      SelectsMember(members, name, cs);
  }

  /** The step still selects the child after the child's own value changed. */
  lemma ChildStepKept(t: Json, step: CString, i: nat, v: Json, cs: bool)
    requires ChildStep(t, step, i, cs)
    ensures ChildStep(WithChild(t, i, v), step, i, cs) && Child(WithChild(t, i, v), i) == v
  {
    if t.Object? {
      var name :| Find(t.members, name, cs) == i && step == [SLASH] + Encode(name);
      FindIs(t.members[i := Member(t.members[i].name, v)], name, cs, i);
    }
  }

  /** A generated operation on a path through a child is that operation on the child. */
  lemma ApplyBelow(t: Json, step: CString, i: nat, op: Operation, q: CString, value: Option<Json>, cs: bool)
    requires ChildStep(t, step, i, cs) && Generated(op) && q != [] && q[0] == SLASH
    ensures ApplyOperation(t, op, step + q, None, value, cs)
         == var (status, r) := ApplyOperation(Child(t, i), op, q, None, value, cs); (status, WithChild(t, i, r))
  {
    ChildStepSelects(t, step, i, cs);
    WithChildSame(t, i);
    if !op.ADD? {
      DetachBelow(t, step, i, q, cs);
    }
    if op.ADD? && value.Some? {
      AddBelow(t, step, i, q, value.value, cs);
    }
    if op.REPLACE? && value.Some? {
      var taken := DetachPath(Child(t, i), q, cs);
      if taken.Some? {
        var next := WithChild(t, i, taken.value.1);
        ChildStepKept(t, step, i, taken.value.1, cs);
        ChildStepSelects(next, step, i, cs);
        AddBelow(next, step, i, q, value.value, cs);
        WithChildTwice(t, i, taken.value.1, AddPath(taken.value.1, q, value.value, cs).1);
      }
    }
  }

  lemma WithChildTwice(t: Json, i: nat, v: Json, w: Json)
    requires i < ChildCount(t)
    ensures WithChild(WithChild(t, i, v), i, w) == WithChild(t, i, w)
  {
    if t.Array? {
      assert t.items[i := v][i := w] == t.items[i := w];
    } else if t.Object? {
      var n := t.members[i].name;
      assert t.members[i := Member(n, v)][i := Member(n, w)] == t.members[i := Member(n, w)];
    }
  }
}
