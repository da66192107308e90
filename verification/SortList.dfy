// sort_list on the linked child list itself: the nodes are relinked in place.
module SortList {
  import opened Sequences
  import opened CText
  import opened NameSort

  class Node {
    const name: CString
    var next: Node?
    var prev: Node?

    constructor (name: CString)
      ensures this.name == name && next == null && prev == null
    {
      this.name := name;
      next, prev := null, null;
    }
  }

  function NodeKey(cs: bool): Node -> CString {
    (n: Node) => Key(n.name, cs)
  }

  /** The nodes of `s` in the order sort_list leaves them. */
  ghost function Sorted(s: seq<Node>, cs: bool): seq<Node> {
    Sort(s, NodeKey(cs))
  }

  ghost predicate Within(s: seq<Node>, nodes: set<Node>) {
    forall i :: 0 <= i < |s| ==> s[i] in nodes
  }

  /** No node is in both lists. */
  ghost predicate Disjoint(a: seq<Node>, b: seq<Node>) {
    forall i, j :: 0 <= i < |a| && 0 <= j < |b| ==> a[i] != b[j]
  }

  /** The node at position `i`; null just past the end. */
  ghost function NodeAt(s: seq<Node>, i: nat): Node? {
    if i < |s| then s[i] else null
  }

  /** The next chain runs through `s` and ends in null; every later node's prev is its predecessor. */
  ghost predicate Linked(s: seq<Node>, nodes: set<Node>)
    reads nodes
  {
    && Within(s, nodes)
    && (forall i {:trigger s[i].next} :: 0 <= i < |s| ==> s[i].next == NodeAt(s, i + 1))
    && (forall i {:trigger s[i].prev} :: 1 <= i < |s| ==> s[i].prev == s[i - 1])
  }

  /** The nodes of `s` are tied to each other; nothing is said about the outer ends. */
  ghost predicate Joined(s: seq<Node>, nodes: set<Node>)
    reads nodes
  {
    && Within(s, nodes)
    && (forall i {:trigger s[i].next} :: 0 <= i < |s| - 1 ==> s[i].next == s[i + 1])
    && (forall i {:trigger s[i].prev} :: 1 <= i < |s| ==> s[i].prev == s[i - 1])
  }

  /** `list` is the head of a list of the different nodes `s`. */
  ghost predicate ListOf(list: Node?, s: seq<Node>, nodes: set<Node>)
    reads nodes
  {
    list == NodeAt(s, 0) && Linked(s, nodes) && NoRepeats(s)
  }

  /** The first loop of sort_list: is the list strictly ascending already? */
  method IsAscending(list: Node, cs: bool, ghost s: seq<Node>, ghost nodes: set<Node>) returns (ascending: bool)
    requires ListOf(list, s, nodes)
    ensures ascending == Ascending(s, NodeKey(cs))
  {
    var current := list;
    ghost var i := 0;
    while current.next != null
      invariant 0 <= i < |s| && current == s[i]
      invariant forall j :: 0 <= j < i ==> Before(Key(s[j].name, cs), Key(s[j + 1].name, cs))
      decreases |s| - i
    {
      var order := CompareStrings(current.name, current.next.name, cs);
      if order >= 0 {
        assert !Before(NodeKey(cs)(s[i]), NodeKey(cs)(s[i + 1]));
        return false;
      }
      current, i := current.next, i + 1;
    }
    return true;
  }

  /** The two-speed walk to the middle. */
  method FindMiddle(list: Node, ghost s: seq<Node>, ghost nodes: set<Node>) returns (second: Node?)
    requires ListOf(list, s, nodes)
    ensures second == NodeAt(s, Middle(|s|))
  {
    var current: Node? := list;
    second := list;
    ghost var i := 0;
    while current != null
      invariant 0 <= i <= |s| && second == NodeAt(s, i)
      invariant current == NodeAt(s, 2 * i)
      invariant 2 * i <= |s| + 1
      decreases |s| - i
    {
      second := second.next;
      current := current.next;
      if current != null {
        current := current.next;
      }
      i := i + 1;
    }
  }

  lemma LinkedTail(s: seq<Node>, nodes: set<Node>)
    requires s != [] && Linked(s, nodes)
    ensures Linked(s[1..], nodes)
    ensures s[0].next == NodeAt(s[1..], 0)
  {
    assert forall i :: 0 <= i < |s[1..]| ==> s[1..][i] == s[i + 1];
  }

  /** A joined part and a linked rest, once tied together, form one linked list. */
  lemma JoinedThenLinked(done: seq<Node>, rest: seq<Node>, nodes: set<Node>)
    requires done != [] && Joined(done, nodes) && Linked(rest, nodes)
    requires done[|done| - 1].next == NodeAt(rest, 0)
    requires rest != [] ==> rest[0].prev == done[|done| - 1]
    ensures Linked(done + rest, nodes)
  {
    var s := done + rest;
    forall i | 0 <= i < |s| ensures s[i].next == NodeAt(s, i + 1) {
      if i >= |done| { assert s[i] == rest[i - |done|]; }
    }
    forall i | 1 <= i < |s| ensures s[i].prev == s[i - 1] {
      if i > |done| { assert s[i] == rest[i - |done|] && s[i - 1] == rest[i - 1 - |done|]; }
    }
  }

  // ----- merging -----

  /** What the merge loop works on: the merged part and the two rests, all of different nodes. */
  ghost predicate Merging(done: seq<Node>, ra: seq<Node>, rb: seq<Node>, nodes: set<Node>)
    reads nodes
  {
    && Joined(done, nodes) && Linked(ra, nodes) && Linked(rb, nodes)
    && NoRepeats(done) && NoRepeats(ra) && NoRepeats(rb)
    && Disjoint(done, ra) && Disjoint(done, rb) && Disjoint(ra, rb)
  }

  lemma MergingSwap(done: seq<Node>, ra: seq<Node>, rb: seq<Node>, nodes: set<Node>)
    requires Merging(done, ra, rb, nodes)
    ensures Merging(done, rb, ra, nodes)
  {
  }

  /** `smaller` leaves the front of `ra` and joins the end of the merged part. */
  method Take(tail: Node?, smaller: Node, ghost done: seq<Node>, ghost ra: seq<Node>, ghost rb: seq<Node>,
              ghost nodes: set<Node>)
    returns (following: Node?)
    requires Merging(done, ra, rb, nodes) && ra != [] && smaller == ra[0]
    requires tail == if done == [] then null else done[|done| - 1]
    modifies if tail == null then {} else {tail, smaller}
    ensures Merging(done + [smaller], ra[1..], rb, nodes)
    ensures following == NodeAt(ra[1..], 0)
    ensures done != [] ==> done[0].prev == old(done[0].prev)
  {
    LinkedTail(ra, nodes);
    following := smaller.next;
    if tail != null {
      tail.next := smaller;
      smaller.prev := tail;
    }
  }

  /** One turn of the merge loop: the smaller head moves, the second list's on a tie. */
  method MergeStep(tail: Node?, first: Node, second: Node, cs: bool,
                   ghost done: seq<Node>, ghost ra: seq<Node>, ghost rb: seq<Node>, ghost nodes: set<Node>)
    returns (smaller: Node, first': Node?, second': Node?, ghost na: seq<Node>, ghost nb: seq<Node>)
    requires Merging(done, ra, rb, nodes)
    requires ra != [] && rb != [] && first == ra[0] && second == rb[0]
    requires tail == if done == [] then null else done[|done| - 1]
    modifies if tail == null then {} else {tail, first, second}
    ensures smaller in nodes && (smaller == first || smaller == second)
    ensures Merging(done + [smaller], na, nb, nodes)
    ensures first' == NodeAt(na, 0) && second' == NodeAt(nb, 0)
    ensures Merge(ra, rb, NodeKey(cs)) == [smaller] + Merge(na, nb, NodeKey(cs))
    ensures |na| + |nb| < |ra| + |rb| && (na != [] || nb != [])
    ensures done != [] ==> done[0].prev == old(done[0].prev)
  {
    var order := CompareStrings(first.name, second.name, cs);
    assert order < 0 <==> Before(NodeKey(cs)(ra[0]), NodeKey(cs)(rb[0]));
    if order < 0 {
      smaller, second', na, nb := first, second, ra[1..], rb;
      first' := Take(tail, smaller, done, ra, rb, nodes);
    } else {
      smaller, first', na, nb := second, first, ra, rb[1..];
      MergingSwap(done, ra, rb, nodes);
      second' := Take(tail, smaller, done, rb, ra, nodes);
      MergingSwap(done + [smaller], nb, na, nodes);
    }
  }

  /** The merge loop after its first turn; it ends with one list used up. */
  method MergeLoop(tail0: Node, first0: Node?, second0: Node?, cs: bool,
                   ghost done0: seq<Node>, ghost a: seq<Node>, ghost b: seq<Node>, ghost nodes: set<Node>)
    returns (tail: Node, first: Node?, second: Node?, ghost done: seq<Node>, ghost ra: seq<Node>, ghost rb: seq<Node>)
    requires first0 == NodeAt(a, 0) && second0 == NodeAt(b, 0) && (a != [] || b != [])
    requires Merging(done0, a, b, nodes) && done0 != [] && tail0 == done0[|done0| - 1]
    modifies nodes
    ensures first == NodeAt(ra, 0) && second == NodeAt(rb, 0) && (ra == []) != (rb == [])
    ensures done0 + Merge(a, b, NodeKey(cs)) == done + Merge(ra, rb, NodeKey(cs))
    ensures Merging(done, ra, rb, nodes) && done != [] && tail == done[|done| - 1]
    ensures done[0] == done0[0] && done[0].prev == old(done0[0].prev)
  {
    tail, first, second, done, ra, rb := tail0, first0, second0, done0, a, b;
    while first != null && second != null
      invariant first == NodeAt(ra, 0) && second == NodeAt(rb, 0) && (ra != [] || rb != [])
      invariant done0 + Merge(a, b, NodeKey(cs)) == done + Merge(ra, rb, NodeKey(cs))
      invariant Merging(done, ra, rb, nodes)
      invariant done != [] && tail == done[|done| - 1]
      invariant done[0] == done0[0] && done[0].prev == old(done0[0].prev)
      decreases |ra| + |rb|
    {
      ghost var na, nb;
      tail, first, second, na, nb := MergeStep(tail, first, second, cs, done, ra, rb, nodes);
      Regroup(done, [tail], Merge(na, nb, NodeKey(cs)));
      done, ra, rb := done + [tail], na, nb;
    }
  }

  /** The rest of the longer list goes behind the merged part. */
  method Finish(tail: Node, node: Node, ghost done: seq<Node>, ghost rest: seq<Node>, ghost nodes: set<Node>)
    requires Merging(done, rest, [], nodes)
    requires done != [] && tail == done[|done| - 1] && rest != [] && node == rest[0]
    modifies tail, node
    ensures Linked(done + rest, nodes) && NoRepeats(done + rest)
    ensures done[0].prev == old(done[0].prev)
  {
    tail.next := node;
    node.prev := tail;
    JoinedThenLinked(done, rest, nodes);
  }

  /** The merge loop and the append after it. */
  method MergeLists(first0: Node, second0: Node, cs: bool, ghost a: seq<Node>, ghost b: seq<Node>,
                    ghost nodes: set<Node>)
    returns (result: Node)
    requires a != [] && a[0] == first0 && b != [] && b[0] == second0
    requires Merging([], a, b, nodes)
    modifies nodes
    ensures ListOf(result, Merge(a, b, NodeKey(cs)), nodes)
    ensures result.prev == old(result.prev)
  {
    var tail, first, second;
    ghost var done, ra, rb;
    tail, first, second, ra, rb := MergeStep(null, first0, second0, cs, [], a, b, nodes);
    result := tail;
    assert [] + [tail] == [tail];
    tail, first, second, done, ra, rb := MergeLoop(tail, first, second, cs, [tail], ra, rb, nodes);
    MergeWithEmpty(done, ra, rb, cs);
    FinishMerge(tail, first, second, done, ra, rb, nodes);
  }

  lemma MergeWithEmpty(done: seq<Node>, ra: seq<Node>, rb: seq<Node>, cs: bool)
    requires ra == [] || rb == []
    ensures done + Merge(ra, rb, NodeKey(cs)) == done + ra + rb
  {
  }

  /** The two appends after the loop; only one of them finds anything left. */
  method FinishMerge(tail: Node, first: Node?, second: Node?,
                     ghost done: seq<Node>, ghost ra: seq<Node>, ghost rb: seq<Node>, ghost nodes: set<Node>)
    requires Merging(done, ra, rb, nodes) && done != [] && tail == done[|done| - 1]
    requires first == NodeAt(ra, 0) && second == NodeAt(rb, 0) && (ra == []) != (rb == [])
    modifies nodes
    ensures Linked(done + ra + rb, nodes) && NoRepeats(done + ra + rb)
    ensures done[0].prev == old(done[0].prev)
  {
    if first != null {
      assert rb == [] && done + ra + rb == done + ra;
      Finish(tail, first, done, ra, nodes);
    }
    if second != null {
      assert ra == [] && done + ra + rb == done + rb;
      MergingSwap(done, ra, rb, nodes);
      Finish(tail, second, done, rb, nodes);
    }
  }

  // ----- sorting -----

  /** Finding the middle and cutting the list there. */
  method SplitList(list: Node, ghost s: seq<Node>, ghost nodes: set<Node>)
    returns (second: Node, ghost l: seq<Node>, ghost r: seq<Node>)
    requires ListOf(list, s, nodes) && |s| > 1
    modifies nodes
    ensures l == s[..Middle(|s|)] && r == s[Middle(|s|)..] && l != [] && r != [] && l + r == s
    ensures ListOf(list, l, nodes) && ListOf(second, r, nodes) && Disjoint(l, r)
    ensures second.prev == null && list.prev == old(list.prev) && second != list
  {
    var middle := FindMiddle(list, s, nodes);
    ghost var m := Middle(|s|);
    l, r := s[..m], s[m..];
    assert 0 < m < |s| && middle == s[m] && middle.prev == s[m - 1];
    middle.prev.next := null;
    middle.prev := null;
    second := middle;
    HalvesLinked(s, m, nodes);
  }

  /** Cutting the links between the halves leaves two lists. */
  lemma HalvesLinked(s: seq<Node>, m: nat, nodes: set<Node>)
    requires 0 < m < |s| && NoRepeats(s) && Within(s, nodes)
    requires forall i {:trigger s[i].next} :: 0 <= i < |s| ==>
      s[i].next == if i == m - 1 then null else NodeAt(s, i + 1)
    requires forall i {:trigger s[i].prev} :: 1 <= i < |s| ==> s[i].prev == if i == m then null else s[i - 1]
    ensures ListOf(s[0], s[..m], nodes) && ListOf(s[m], s[m..], nodes) && Disjoint(s[..m], s[m..])
  {
  }

  ghost function Nodes(s: seq<Node>): (r: set<Node>)
    ensures Within(s, r)
  {
    set n | n in s
  }

  lemma DisjointNodes(a: seq<Node>, b: seq<Node>)
    requires Disjoint(a, b)
    ensures Nodes(a) !! Nodes(b)
  {
  }

  lemma NodesAppend(a: seq<Node>, b: seq<Node>)
    ensures Nodes(a + b) == Nodes(a) + Nodes(b)
  {
  }

  lemma WithinDisjoint(a: seq<Node>, b: seq<Node>, na: set<Node>, nb: set<Node>)
    requires Within(a, na) && Within(b, nb) && na !! nb
    ensures Disjoint(a, b)
  {
  }

  /** The two recursive calls; each leaves the other half alone. */
  method SortHalves(list: Node, middle: Node, cs: bool, ghost l: seq<Node>, ghost r: seq<Node>, ghost nl: set<Node>,
                    ghost nr: set<Node>)
    returns (first: Node, second: Node)
    requires ListOf(list, l, nl) && ListOf(middle, r, nr) && l != [] && r != []
    requires nl == Nodes(l) && nr == Nodes(r) && nl !! nr
    modifies nl, nr
    ensures ListOf(first, Sorted(l, cs), nl) && ListOf(second, Sorted(r, cs), nr)
    ensures first.prev == if first == list then old(list.prev) else null
    ensures second.prev == if second == middle then old(middle.prev) else null
    decreases |l| + |r|, 0
  {
    first := SortInPlace(list, cs, l, nl);
    second := SortInPlace(middle, cs, r, nr);
  }

  /**
   * sort_list: whatever list comes in, the chain that comes out runs through the same nodes in the order
   * of `Sort`. The head of the result keeps its prev only if it was the head before; otherwise its prev
   * is null, since it led a second half somewhere on the way.
   */
  method SortInPlace(list: Node?, cs: bool, ghost s: seq<Node>, ghost nodes: set<Node>) returns (result: Node?)
    requires ListOf(list, s, nodes) && nodes == Nodes(s)
    modifies nodes
    ensures ListOf(result, Sorted(s, cs), nodes)
    ensures result != null ==> result.prev == if result == list then old(list.prev) else null
    decreases |s|, 1
  {
    result := list;
    if list == null || list.next == null {
      return;
    }
    var ascending := IsAscending(list, cs, s, nodes);
    if ascending {
      return;
    }
    var first, second;
    ghost var l, r;
    second, l, r := SplitList(list, s, nodes);
    DisjointNodes(l, r);
    NodesAppend(l, r);
    first, second := SortHalves(list, second, cs, l, r, Nodes(l), Nodes(r));
    result := MergeSorted(first, second, cs, Sorted(l, cs), Sorted(r, cs), Nodes(l), Nodes(r));
  }

  method MergeSorted(first: Node, second: Node, cs: bool, ghost a: seq<Node>, ghost b: seq<Node>, ghost na: set<Node>,
                     ghost nb: set<Node>)
    returns (result: Node)
    requires a != [] && b != [] && ListOf(first, a, na) && ListOf(second, b, nb) && na !! nb
    modifies na, nb
    ensures ListOf(result, Merge(a, b, NodeKey(cs)), na + nb)
    ensures result == first || result == second
    ensures result.prev == old(result.prev)
  {
    WithinDisjoint(a, b, na, nb);
    assert Linked(a, na + nb) && Linked(b, na + nb);
    result := MergeLists(first, second, cs, a, b, na + nb);
  }
}
