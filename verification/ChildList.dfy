// The doubly linked child list of an array or object: next ends in null, the head's prev is the tail.
module ChildList {
  import opened Sequences
  import opened NameSort
  import opened SortList

  /** What the list operations do to the sequence of the children. */
  datatype Command<T> =
    | Append(item: T)
    | Detach(which: nat)
    | Insert(which: nat, item: T)
    | InsertStrictly(which: nat, item: T)
    | Replace(which: nat, item: T)

  function Apply<T>(s: seq<T>, c: Command<T>): seq<T> {
    match c
    case Append(x) => s + [x]
    case Detach(i) => if i < |s| then RemoveAt(s, i) else s
    case Insert(i, x) => if i < |s| then InsertAt(s, i, x) else s + [x]
    case InsertStrictly(i, x) => if i <= |s| then InsertAt(s, i, x) else s
    case Replace(i, x) => if i < |s| then s[i := x] else s
  }

  function RunAll<T>(s: seq<T>, cs: seq<Command<T>>): seq<T>
    decreases |cs|
  {
    if cs == [] then s else RunAll(Apply(s, cs[0]), cs[1..])
  }

  lemma ApplyTwo<T>(s: seq<T>, a: Command<T>, b: Command<T>)
    ensures RunAll(s, [a, b]) == Apply(Apply(s, a), b)
  {
    assert [a, b][1..] == [b];
    assert RunAll(Apply(s, a), [b]) == Apply(Apply(s, a), b);
  }

  /** Detaching what was inserted gives the old list back. */
  lemma InsertThenDetach<T>(s: seq<T>, i: nat, x: T)
    requires i <= |s|
    ensures RunAll(s, [InsertStrictly(i, x), Detach(i)]) == s
  {
    ApplyTwo(s, InsertStrictly(i, x), Detach(i));
    RemoveInserted(s, i, x);
  }

  lemma RemoveInserted<T>(s: seq<T>, i: nat, x: T)
    requires i <= |s|
    ensures RemoveAt(InsertAt(s, i, x), i) == s
  {
    Around(s[..i], [x], s[i..]);
    var r := InsertAt(s, i, x);
    assert r[..i] == s[..i] && r[i + 1..] == s[i..];
    assert RemoveAt(r, i) == s[..i] + s[i..] == s;
  }

  /** Replacing is detaching and inserting at the same place. */
  lemma {:induction false} ReplaceAsTwo<T>(s: seq<T>, i: nat, x: T)
    requires i < |s|
    ensures RunAll(s, [Detach(i), InsertStrictly(i, x)]) == Apply(s, Replace(i, x))
  {
    ApplyTwo(s, Detach(i), InsertStrictly(i, x));
    Around(s[..i], [], s[i + 1..]);
    assert s[..i] + [] + s[i + 1..] == RemoveAt(s, i);
    assert s[..i] + [x] + s[i + 1..] == s[i := x];
  }

  lemma Around<T>(a: seq<T>, b: seq<T>, c: seq<T>)
    ensures (a + b + c)[..|a|] == a && (a + b + c)[|a| + |b|..] == c
  {
  }

  ghost predicate TailKnown(s: seq<Node>, nodes: set<Node>)
    requires Within(s, nodes)
    reads nodes
  {
    s != [] ==> s[0].prev == s[|s| - 1]
  }

  /** Hooking a new last node behind `s[k]` makes a list of what stands up to there and the node. */
  lemma AppendedBehind(s: seq<Node>, k: nat, item: Node, nodes: set<Node>)
    requires k < |s| && item !in s && NoRepeats(s) && Within(s, nodes)
    requires (forall i {:trigger s[i].next} :: 0 <= i < k ==> s[i].next == s[i + 1]) && s[k].next == item
         && item.next == null
    requires (forall i {:trigger s[i].prev} :: 1 <= i <= k ==> s[i].prev == s[i - 1]) && item.prev == s[k]
    ensures ListOf(s[0], s[..k + 1] + [item], nodes + {item})
  {
    var r := s[..k + 1] + [item];
    assert forall i :: 0 <= i < |r| ==> r[i] == if i <= k then s[i] else item;
  }

  /** Linking the neighbours of `s[i]` to each other makes a list of the remaining nodes. */
  lemma Unhooked(s: seq<Node>, i: nat, nodes: set<Node>)
    requires i < |s| && NoRepeats(s) && Within(s, nodes)
    requires forall j {:trigger s[j].next} :: 0 <= j < |s| && j != i && j != i - 1 ==> s[j].next == NodeAt(s, j + 1)
    requires forall j {:trigger s[j].prev} :: 1 <= j < |s| && j != i && j != i + 1 ==> s[j].prev == s[j - 1]
    requires i > 0 ==> s[i - 1].next == NodeAt(s, i + 1)
    requires i + 1 < |s| ==> s[i + 1].prev == s[if i == 0 then |s| - 1 else i - 1]
    requires i > 0 ==> s[0].prev == s[if i == |s| - 1 then i - 1 else |s| - 1]
    ensures ListOf(NodeAt(RemoveAt(s, i), 0), RemoveAt(s, i), nodes) && TailKnown(RemoveAt(s, i), nodes)
  {
    var r := RemoveAt(s, i);
    forall j | 0 <= j < |r| ensures r[j].next == NodeAt(r, j + 1) && (j > 0 ==> r[j].prev == r[j - 1]) {
      var k := if j < i then j else j + 1;
      assert r[j] == s[k];
      if j > 0 { assert r[j - 1] == s[if j - 1 < i then j - 1 else j]; }
      if j + 1 < |r| { assert r[j + 1] == s[if j + 1 < i then j + 1 else j + 2]; }
    }
    if r != [] {
      assert r[0] == s[if i == 0 then 1 else 0] && r[|r| - 1] == s[if i == |s| - 1 then i - 1 else |s| - 1];
    }
    forall j, k | 0 <= j < k < |r| ensures r[j] != r[k] {
      assert r[j] == s[if j < i then j else j + 1] && r[k] == s[if k < i then k else k + 1];
    }
  }

  /** `x` hooked in before `s[i]`. */
  lemma Hooked(s: seq<Node>, i: nat, x: Node, nodes: set<Node>)
    requires i < |s| && NoRepeats(s) && Within(s, nodes) && x !in s
    requires forall j {:trigger s[j].next} :: 0 <= j < |s| && j != i - 1 ==> s[j].next == NodeAt(s, j + 1)
    requires forall j {:trigger s[j].prev} :: 1 <= j < |s| && j != i ==> s[j].prev == s[j - 1]
    requires x.next == s[i] && s[i].prev == x && x.prev == s[if i == 0 then |s| - 1 else i - 1]
    requires i > 0 ==> s[i - 1].next == x && s[0].prev == s[|s| - 1]
    ensures ListOf(InsertAt(s, i, x)[0], InsertAt(s, i, x), nodes + {x}) && TailKnown(InsertAt(s, i, x), nodes + {x})
  {
    var r := InsertAt(s, i, x);
    forall j | 0 <= j < |r| ensures r[j].next == NodeAt(r, j + 1) && (j > 0 ==> r[j].prev == r[j - 1]) {
      assert r[j] == if j < i then s[j] else if j == i then x else s[j - 1];
      if j + 1 < |r| { assert r[j + 1] == if j + 1 < i then s[j + 1] else if j + 1 == i then x else s[j]; }
      if j > 0 { assert r[j - 1] == if j - 1 < i then s[j - 1] else if j - 1 == i then x else s[j - 2]; }
    }
    forall j, k | 0 <= j < k < |r| ensures r[j] != r[k] {
      assert r[j] == if j < i then s[j] else if j == i then x else s[j - 1];
      assert r[k] == if k < i then s[k] else if k == i then x else s[k - 1];
    }
    assert r[0] == (if i == 0 then x else s[0]) && r[|r| - 1] == s[|s| - 1];
  }

  /** `x` in the place of `s[i]`. */
  lemma Swapped(s: seq<Node>, i: nat, x: Node, nodes: set<Node>)
    requires i < |s| && NoRepeats(s) && Within(s, nodes) && x !in s
    requires forall j {:trigger s[j].next} :: 0 <= j < |s| && j != i && j != i - 1 ==> s[j].next == NodeAt(s, j + 1)
    requires forall j {:trigger s[j].prev} :: 1 <= j < |s| && j != i && j != i + 1 ==> s[j].prev == s[j - 1]
    requires x.next == NodeAt(s, i + 1) && x.prev == (if i > 0 then s[i - 1] else if |s| == 1 then x else s[|s| - 1])
    requires (i > 0 ==> s[i - 1].next == x) && (i + 1 < |s| ==> s[i + 1].prev == x)
    requires i > 0 ==> s[0].prev == if i == |s| - 1 then x else s[|s| - 1]
    ensures ListOf(s[i := x][0], s[i := x], nodes + {x}) && TailKnown(s[i := x], nodes + {x})
  {
    var r := s[i := x];
    forall j | 0 <= j < |r| ensures r[j].next == NodeAt(r, j + 1) && (j > 0 ==> r[j].prev == r[j - 1]) {
    }
  }

  lemma SortKeeps(s: seq<Node>, cs: bool)
    ensures |Sorted(s, cs)| == |s| && (s != [] ==> s[|s| - 1] in Sorted(s, cs))
    ensures Nodes(Sorted(s, cs)) == Nodes(s)
  {
    SortPermutes(s, NodeKey(cs));
    forall x | x in Sorted(s, cs) ensures x in s { assert x in multiset(Sorted(s, cs)); }
    forall x | x in s ensures x in Sorted(s, cs) { assert x in multiset(s); }
    assert |multiset(s)| == |s| && |multiset(Sorted(s, cs))| == |Sorted(s, cs)|;
    if s != [] { assert s[|s| - 1] in multiset(s); }
  }

  lemma NodesLinked(s: seq<Node>, nodes: set<Node>)
    requires Linked(s, nodes)
    ensures Nodes(s) <= nodes && Linked(s, Nodes(s))
  {
  }

  /** The nodes a command brings in. */
  function Operand(c: Command<Node>): set<Node> {
    if c.Detach? then {} else {c.item}
  }

  /** No command brings in a node that is in the list at its turn. */
  ghost predicate Legal(s: seq<Node>, cs: seq<Command<Node>>)
    decreases |cs|
  {
    cs == [] || ((!cs[0].Detach? ==> cs[0].item !in s) && Legal(Apply(s, cs[0]), cs[1..]))
  }

  /** Nodes outside the list are linked to nothing. */
  ghost predicate Idle(pool: set<Node>, s: seq<Node>)
    reads pool
  {
    forall n :: n in pool && n !in s ==> n.next == null
  }

  lemma ApplyStaysWithin(s: seq<Node>, c: Command<Node>)
    ensures Nodes(Apply(s, c)) <= Nodes(s) + Operand(c)
  {
    var r := Apply(s, c);
    forall n | n in r ensures n in Nodes(s) + Operand(c) {
      var j :| 0 <= j < |r| && r[j] == n;
      if c.Detach? && c.which < |s| { assert n == s[if j < c.which then j else j + 1]; }
      if c.Insert? && c.which < |s| { assert n == c.item || n == s[if j < c.which then j else j - 1]; }
      if c.InsertStrictly? && c.which <= |s| { assert n == c.item || n == s[if j < c.which then j else j - 1]; }
      if c.Replace? && c.which < |s| { assert n == c.item || n == s[j]; }
    }
  }

  lemma LegalStep(s: seq<Node>, cs: seq<Command<Node>>, k: nat)
    requires k < |cs| && Legal(s, cs[k..])
    ensures !cs[k].Detach? ==> cs[k].item !in s
    ensures Legal(Apply(s, cs[k]), cs[k + 1..]) && RunAll(s, cs[k..]) == RunAll(Apply(s, cs[k]), cs[k + 1..])
  {
    assert cs[k..][0] == cs[k] && cs[k..][1..] == cs[k + 1..];
  }

  /** Only the node at `i` can leave the list. */
  lemma RemovedLeaves(s: seq<Node>, i: nat)
    requires i < |s|
    ensures forall n :: n in s && n !in RemoveAt(s, i) ==> n == s[i]
  {
    forall n | n in s && n != s[i] ensures n in RemoveAt(s, i) {
      var j :| 0 <= j < |s| && s[j] == n;
      assert RemoveAt(s, i)[if j < i then j else j - 1] == n;
    }
  }

  lemma ReplacedLeaves(s: seq<Node>, i: nat, x: Node)
    requires i < |s|
    ensures x in s[i := x] && forall n :: n in s && n !in s[i := x] ==> n == s[i]
  {
    assert s[i := x][i] == x;
    forall n | n in s && n != s[i] ensures n in s[i := x] {
      var j :| 0 <= j < |s| && s[j] == n;
      assert s[i := x][j] == n;
    }
  }

  /** The first name is strictly before all others and the last one strictly after all others. */
  ghost predicate EndsInPlace(s: seq<Node>, cs: bool) {
    FirstIsLeast(s, NodeKey(cs)) && LastIsGreatest(s, NodeKey(cs))
  }

  /** Exactly then sorting leaves both ends in place. */
  lemma EndsStay(s: seq<Node>, cs: bool)
    requires NoRepeats(s)
    ensures |Sorted(s, cs)| == |s|
    ensures EndsInPlace(s, cs) <==> s == [] || (Sorted(s, cs)[0] == s[0] && Sorted(s, cs)[|s| - 1] == s[|s| - 1])
  {
    if s != [] {
      FirstStays(s, NodeKey(cs));
      LastStays(s, NodeKey(cs));
    }
  }

  /** What the head's prev is after sorting, and when that is the last node. */
  lemma TailAfterSort(s: seq<Node>, cs: bool, prev: Node?)
    requires s != [] && NoRepeats(s) && |Sorted(s, cs)| == |s|
    requires prev == if Sorted(s, cs)[0] == s[0] then s[|s| - 1] else null
    ensures prev == Sorted(s, cs)[|s| - 1] <==> EndsInPlace(s, cs)
  {
    EndsStay(s, cs);
  }

  class Children {
    var child: Node?
    ghost var items: seq<Node>
    ghost var nodes: set<Node>

    /** The chain is sound and the head's prev is null or one of the nodes. */
    ghost predicate Chained()
      reads this, nodes
    {
      nodes == Nodes(items) && ListOf(child, items, nodes)
          && (items != [] && items[0].prev != null ==> items[0].prev in items)
    }

    ghost predicate Valid()
      reads this, nodes
    {
      Chained() && TailKnown(items, nodes)
    }

    constructor ()
      ensures Valid() && items == []
    {
      child, items, nodes := null, [], {};
    }

    /** From now on the list stands for `s`. */
    ghost method Settle(s: seq<Node>, within: set<Node>)
      requires ListOf(child, s, within) && (s != [] && s[0].prev != null ==> s[0].prev in s)
      modifies this`items, this`nodes
      ensures Chained() && items == s && (Valid() <==> TailKnown(s, within))
    {
      items := s;
      NodesLinked(items, within);
      nodes := Nodes(items);
    }

    /** The position of the node the head's prev names. */
    ghost function TailMark(): (k: nat)
      requires Chained() && items != [] && items[0].prev != null
      reads this, nodes
      ensures k < |items| && items[k] == items[0].prev
    {
      var k :| 0 <= k < |items| && items[k] == items[0].prev;
      k
    }

    /**
     * add_item_to_array. On a valid list it appends. Where the head's prev is null it reports success and
     * adds nothing; where it names another node, everything behind that node is cut off.
     */
    method AddItemToArray(item: Node) returns (ok: bool)
      requires Chained() && item !in items && item.next == null
      modifies this, nodes, item
      ensures ok && Chained()
      ensures old(items == []) ==> items == [item]
      ensures old(items != [] && items[0].prev == null) ==> items == old(items)
      ensures old(items != [] && items[0].prev != null) ==> items == old(items[..TailMark() + 1]) + [item]
      ensures items == old(items) + [item] <==> old(Valid())
      ensures old(Valid()) ==> Valid()
    {
      ok := true;
      if child == null {
        child := item;
        item.prev, item.next := item, null;
        items, nodes := [item], {item};
      } else if child.prev != null {
        ghost var k := TailMark();
        items := items[..k + 1] + [item];
        child.prev.next, item.prev := item, child.prev;
        child.prev := item;
        AppendedBehind(old(items), k, item, nodes);
        NodesLinked(items, nodes + {item});
        nodes := Nodes(items);
      }
    }

    /** get_array_item: null behind the end. */
    method GetArrayItem(which: nat) returns (item: Node?)
      requires Chained()
      ensures item == NodeAt(items, which)
    {
      item := child;
      var index: nat := which;
      ghost var i := 0;
      while item != null && index > 0
        invariant 0 <= i <= |items| && item == NodeAt(items, i) && index + i == which
        invariant item == null ==> i == |items|
        decreases index
      {
        index := index - 1;
        item := item.next;
        i := i + 1;
      }
    }

    /** cJSON_DetachItemViaPointer. */
    method DetachItemViaPointer(item: Node, ghost i: nat)
      requires Valid() && i < |items| && items[i] == item
      modifies this, nodes
      ensures Valid() && items == RemoveAt(old(items), i)
      ensures item.next == null && item.prev == null
    {
      assert child == items[0] && item.next == NodeAt(items, i + 1)
          && item.prev == items[if i == 0 then |items| - 1 else i - 1];
      if item != child {
        item.prev.next := item.next;
      }
      if item.next != null {
        item.next.prev := item.prev;
      }
      if item == child {
        child := item.next;
      } else if item.next == null {
        child.prev := item.prev;
      }
      item.prev := null;
      item.next := null;
      Unhooked(items, i, nodes);
      Settle(RemoveAt(items, i), nodes);
    }

    /** detach_item_from_array and cJSON_DetachItemFromArray: null if there is no such item. */
    method DetachItemFromArray(which: nat) returns (item: Node?)
      requires Valid()
      modifies this, nodes
      ensures Valid() && items == Apply(old(items), Detach(which))
      ensures item == old(NodeAt(items, which))
      ensures item != null ==> item.next == null && item.prev == null
    {
      item := GetArrayItem(which);
      if item != null {
        DetachItemViaPointer(item, which);
      }
    }

    /** The relinking that both insert functions share. */
    method InsertBefore(item: Node, newItem: Node, ghost i: nat)
      requires Valid() && i < |items| && items[i] == item && newItem !in items
      modifies this, nodes, newItem
      ensures Valid() && items == InsertAt(old(items), i, newItem)
    {
      assert child == items[0] && item.prev == items[if i == 0 then |items| - 1 else i - 1];
      newItem.next := item;
      newItem.prev := item.prev;
      item.prev := newItem;
      if item == child {
        child := newItem;
      } else {
        newItem.prev.next := newItem;
      }
      Hooked(items, i, newItem, nodes);
      Settle(InsertAt(items, i, newItem), nodes + {newItem});
    }

    /** cJSON_InsertItemInArray: behind the end it appends. */
    method InsertItemInArray(which: nat, newItem: Node) returns (ok: bool)
      requires Valid() && newItem !in items && newItem.next == null
      modifies this, nodes, newItem
      ensures ok && Valid()
      ensures items == Apply(old(items), Insert(which, newItem))
    {
      var after := GetArrayItem(which);
      if after == null {
        ok := AddItemToArray(newItem);
      } else {
        InsertBefore(after, newItem, which);
        ok := true;
      }
    }

    /** insert_item_in_array: behind the end it fails. */
    method InsertItemStrictly(which: nat, newItem: Node) returns (ok: bool)
      requires Valid() && newItem !in items && newItem.next == null
      modifies this, nodes, newItem
      ensures ok == (which <= |old(items)|) && Valid() && (!ok ==> unchanged(newItem))
      ensures items == Apply(old(items), InsertStrictly(which, newItem))
    {
      var current := child;
      var left: nat := which;
      ghost var i := 0;
      while current != null && left > 0
        invariant 0 <= i <= |items| && current == NodeAt(items, i) && left + i == which
        invariant current == null ==> i == |items|
        decreases left
      {
        current := current.next;
        left := left - 1;
        i := i + 1;
      }
      ok := left == 0;
      if ok {
        if current == null {
          ok := AddItemToArray(newItem);
        } else {
          InsertBefore(current, newItem, i);
        }
      }
    }

    /** cJSON_ReplaceItemViaPointer. */
    method ReplaceItemViaPointer(item: Node, replacement: Node, ghost i: nat) returns (ok: bool)
      requires Valid() && i < |items| && items[i] == item && (replacement == item || replacement !in items)
      modifies this, nodes, replacement
      ensures ok && Valid() && items == old(items)[i := replacement]
      ensures replacement != item ==> item.next == null && item.prev == null
    {
      ok := true;
      if replacement != item {
        assert child == items[0] && item.next == NodeAt(items, i + 1)
            && item.prev == items[if i == 0 then |items| - 1 else i - 1];
        replacement.next := item.next;
        replacement.prev := item.prev;
        if replacement.next != null {
          replacement.next.prev := replacement;
        }
        if child == item {
          if child.prev == child {
            replacement.prev := replacement;
          }
          child := replacement;
        } else {
          if replacement.prev != null {
            replacement.prev.next := replacement;
          }
          if replacement.next == null {
            child.prev := replacement;
          }
        }
        item.next := null;
        item.prev := null;
        Swapped(items, i, replacement, nodes);
        Settle(items[i := replacement], nodes + {replacement});
      }
    }

    /** cJSON_ReplaceItemInArray. */
    method ReplaceItemInArray(which: nat, newItem: Node) returns (ok: bool)
      requires Valid() && newItem !in items
      modifies this, nodes, newItem
      ensures ok == (which < |old(items)|) && Valid() && (!ok ==> unchanged(newItem))
      ensures ok ==> old(items)[which].next == null
      ensures items == Apply(old(items), Replace(which, newItem))
    {
      var item := GetArrayItem(which);
      ok := item != null;
      if ok {
        ok := ReplaceItemViaPointer(item, newItem, which);
      }
    }

    /**
     * sort_object: the chain stays sound, but the head's prev names the tail only if the name of the first
     * node was strictly before all others and that of the last one strictly after all others.
     */
    method SortObject(cs: bool)
      requires Valid()
      modifies this, nodes
      ensures Chained() && items == Sorted(old(items), cs)
      ensures Valid() <==> EndsInPlace(old(items), cs)
    {
      SortKeeps(items, cs);
      ghost var s := items;
      child := SortInPlace(child, cs, items, nodes);
      Settle(Sorted(s, cs), nodes);
      if child != null { TailAfterSort(s, cs, child.prev); }
    }

    /** Sorting and then adding keeps every child exactly under that condition. */
    method AddAfterSort(cs: bool, item: Node) returns (ok: bool)
      requires Valid() && item !in items && item.next == null
      modifies this, nodes, item
      ensures ok
      ensures items == Sorted(old(items), cs) + [item] <==> EndsInPlace(old(items), cs)
    {
      SortKeeps(items, cs);
      assert item in Nodes(Sorted(items, cs)) <==> item in Nodes(items);
      SortObject(cs);
      ok := AddItemToArray(item);
    }

    /** One call of the list interface. */
    method Execute(c: Command<Node>)
      requires Valid() && (!c.Detach? ==> c.item !in items && c.item.next == null)
      modifies this, nodes, Operand(c)
      ensures Valid() && items == Apply(old(items), c)
      ensures forall n :: n in old(items) && n !in items ==> n.next == null
      ensures !c.Detach? && c.item !in items ==> c.item.next == null
    {
      match c {
        case Append(x) =>
          var _ := AddItemToArray(x);
        case Detach(i) =>
          if i < |items| { RemovedLeaves(items, i); }
          var _ := DetachItemFromArray(i);
        case Insert(i, x) =>
          var _ := InsertItemInArray(i, x);
        case InsertStrictly(i, x) =>
          var _ := InsertItemStrictly(i, x);
        case Replace(i, x) =>
          if i < |items| { ReplacedLeaves(items, i, x); }
          var _ := ReplaceItemInArray(i, x);
      }
    }

    /** Any run of calls leaves a well formed list of exactly the nodes the sequence operations leave. */
    method Run(cs: seq<Command<Node>>, ghost pool: set<Node>)
      requires Valid() && Legal(items, cs) && nodes <= pool && Idle(pool, items)
      requires forall j :: 0 <= j < |cs| ==> Operand(cs[j]) <= pool
      modifies this, pool
      ensures Valid() && items == RunAll(old(items), cs) && Idle(pool, items)
    {
      var k := 0;
      assert cs[0..] == cs;
      while k < |cs|
        invariant 0 <= k <= |cs| && Valid() && nodes <= pool && Idle(pool, items)
        invariant RunAll(items, cs[k..]) == RunAll(old(items), cs) && Legal(items, cs[k..])
      {
        LegalStep(items, cs, k);
        ApplyStaysWithin(items, cs[k]);
        Execute(cs[k]);
        k := k + 1;
      }
    }
  }
}
