// The tree that cJSON nodes form, and the value a tree stands for.
module JsonTree {
  import opened CText

  /** `valueint` of a number node; doubles with a fraction are not part of this model. */
  type Int32 = n: int | -0x8000_0000 <= n <= 0x7FFF_FFFF

  datatype Json =
    | Invalid
    | Null
    | False
    | True
    | Number(n: Int32)
    | Text(text: CString)
    | Raw(raw: CString)
    | Array(items: seq<Json>)
    | Object(members: seq<Member>)

  /** A child of an object node: `string` and the rest of the node. */
  datatype Member = Member(name: CString, value: Json)

  /** `type & 0xFF`. */
  function Kind(j: Json): nat {
    match j
    case Invalid => 0
    case False => 1
    case True => 2
    case Null => 4
    case Number(_) => 8
    case Text(_) => 16
    case Array(_) => 32
    case Object(_) => 64
    case Raw(_) => 128
  }

  /**
   * What a tree means: objects are finite maps, so member order is forgotten. Keys are folded the way
   * name look-up folds them, and the first of several equal names wins, as look-up finds it first.
   */
  datatype Value = Atom(scalar: Json) | List(elems: seq<Value>) | Fields(fields: map<CString, Value>)

  function Denote(t: Json, cs: bool): Value {
    match t
    case Array(items) => List(DenoteItems(items, cs))
    case Object(members) => Fields(DenoteMembers(members, cs))
    case _ => Atom(t)
  }

  function DenoteItems(items: seq<Json>, cs: bool): (r: seq<Value>)
    ensures |r| == |items|
    ensures forall i :: 0 <= i < |items| ==> r[i] == Denote(items[i], cs)
  {
    if items == [] then [] else [Denote(items[0], cs)] + DenoteItems(items[1..], cs)
  }

  function DenoteMembers(members: seq<Member>, cs: bool): map<CString, Value> {
    if members == [] then map[]
    else DenoteMembers(members[1..], cs)[Key(members[0].name, cs) := Denote(members[0].value, cs)]
  }

  /** Where look-up of `name` among the members stops; `|members|` when there is no such name. */
  function Find(members: seq<Member>, name: CString, cs: bool): (i: nat)
    ensures i <= |members|
    ensures i < |members| ==> Key(members[i].name, cs) == Key(name, cs)
    ensures forall j :: 0 <= j < i ==> Key(members[j].name, cs) != Key(name, cs)
  {
    if members == [] || Key(members[0].name, cs) == Key(name, cs) then 0
    else
      var r := Find(members[1..], name, cs);
      assert forall j {:trigger members[j]} :: 1 <= j < |members| ==> members[j] == members[1..][j - 1];
      1 + r
  }

  /** The index `Find` returns is the only one with its properties. */
  lemma FindIs(members: seq<Member>, name: CString, cs: bool, i: nat)
    requires i <= |members|
    requires i < |members| ==> Key(members[i].name, cs) == Key(name, cs)
    requires forall j :: 0 <= j < i ==> Key(members[j].name, cs) != Key(name, cs)
    ensures Find(members, name, cs) == i
  {
  }

  /** Look-up reads the map the members mean. */
  lemma {:induction false} DenoteFind(members: seq<Member>, name: CString, cs: bool)
    ensures var i := Find(members, name, cs); var k := Key(name, cs); var m := DenoteMembers(members, cs);
      if i < |members| then k in m && m[k] == Denote(members[i].value, cs) else k !in m
  {
    if members != [] {
      DenoteFind(members[1..], name, cs);
    }
  }

  /** Every key of the meaning is the key of some member. */
  lemma {:induction false} DenoteKey(members: seq<Member>, k: CString, cs: bool)
    requires k in DenoteMembers(members, cs)
    ensures exists i :: 0 <= i < |members| && Key(members[i].name, cs) == k
  {
    if Key(members[0].name, cs) != k {
      DenoteKey(members[1..], k, cs);
      var i :| 0 <= i < |members[1..]| && Key(members[1..][i].name, cs) == k;
      assert Key(members[i + 1].name, cs) == k;
    }
  }

  /** No two members of one object have the same key. */
  predicate DistinctNames(members: seq<Member>, cs: bool) {
    forall i, j :: 0 <= i < j < |members| ==> Key(members[i].name, cs) != Key(members[j].name, cs)
  }

  /** Every object in the tree has distinct names. */
  predicate Distinct(t: Json, cs: bool) {
    match t
    case Array(items) => forall x | x in items :: Distinct(x, cs)
    case Object(members) => DistinctNames(members, cs) && forall m | m in members :: Distinct(m.value, cs)
    case _ => true
  }

  /** Every member name in the tree satisfies `p`. */
  predicate AllNames(t: Json, p: CString -> bool) {
    match t
    case Array(items) => forall x | x in items :: AllNames(x, p)
    case Object(members) => forall m | m in members :: p(m.name) && AllNames(m.value, p)
    case _ => true
  }

  /** Every array has fewer elements than `size_t` can count, as every array in memory has. */
  predicate Countable(t: Json) {
    match t
    case Array(items) => |items| < 0x1_0000_0000_0000_0000 && forall x | x in items :: Countable(x)
    case Object(members) => forall m | m in members :: Countable(m.value)
    case _ => true
  }

  /** Names distinct when case is ignored are distinct exactly. */
  lemma {:induction false} DistinctExact(t: Json)
    requires Distinct(t, false)
    ensures Distinct(t, true)
  {
    match t
    case Array(items) =>
      forall x | x in items ensures Distinct(x, true) { DistinctExact(x); }
    case Object(members) =>
      forall m | m in members ensures Distinct(m.value, true) { DistinctExact(m.value); }
    case _ =>
  }

  /** Positions in a tree: the child indices on the way down from the root. */
  type Location = seq<nat>

  predicate ValidLocation(t: Json, loc: Location)
    decreases |loc|
  {
    loc == [] ||
    match t
    case Array(items) => loc[0] < |items| && ValidLocation(items[loc[0]], loc[1..])
    case Object(members) => loc[0] < |members| && ValidLocation(members[loc[0]].value, loc[1..])
    case _ => false
  }

  /** The node at a position. */
  function Sub(t: Json, loc: Location): Json
    requires ValidLocation(t, loc)
    decreases |loc|
  {
    if loc == [] then t
    else match t
      case Array(items) => Sub(items[loc[0]], loc[1..])
      case Object(members) => Sub(members[loc[0]].value, loc[1..])
  }

  /** The tree after the node at a position became `v`. */
  function Put(t: Json, loc: Location, v: Json): (r: Json)
    requires ValidLocation(t, loc)
    decreases |loc|
  {
    if loc == [] then v
    else match t
      case Array(items) => Array(items[loc[0] := Put(items[loc[0]], loc[1..], v)])
      case Object(members) =>
        Object(members[loc[0] := Member(members[loc[0]].name, Put(members[loc[0]].value, loc[1..], v))])
  }
}
