// CProtocolQueue: a ring of 20 slots whose full and empty tests run before the lock is taken.
module ProtocolQueue {
  import opened Wrappers

  const MAX_QUEUE: nat := 20

  /** The object's fields: the number of free slots, the two indices and the slots, null where nothing is stored. */
  datatype Ring = Ring(free: int, write: nat, read: nat, slots: seq<Option<int>>)

  predicate InRange(q: Ring) {
    |q.slots| == MAX_QUEUE && q.write < MAX_QUEUE && q.read < MAX_QUEUE
  }

  const EMPTY: Ring := Ring(MAX_QUEUE, 0, 0, seq(MAX_QUEUE, _ => None))

  function Next(i: nat): nat {
    if i + 1 == MAX_QUEUE then 0 else i + 1
  }

  /** The locked part of QueuePost. */
  function Post(q: Ring, x: int): (r: Ring)
    requires InRange(q)
    ensures InRange(r)
  {
    Ring(q.free - 1, Next(q.write), q.read, q.slots[q.write := Some(x)])
  }

  /** The locked part of QueuePend. */
  function Pend(q: Ring): (r: Ring)
    requires InRange(q)
    ensures InRange(r)
  {
    Ring(q.free + 1, q.write, Next(q.read), q.slots[q.read := None])
  }

  // ----- threads -----

  /**
   * The queue and its threads. A producer that has passed the test holds its item, a consumer that has
   * passed it waits for the lock. `lost` says that a stored item was overwritten, `crashed` that a null
   * slot was read.
   */
  datatype System = System(
    ring: Ring,
    producers: seq<Option<int>>,
    consumers: seq<bool>,
    posted: seq<int>,
    delivered: seq<int>,
    lost: bool,
    crashed: bool)

  /** The atomic steps: a test outside the lock or a locked part, of one thread. */
  datatype Step =
    | TestFull(p: nat, item: int)
    | PostLocked(p: nat)
    | TestEmpty(c: nat)
    | PendLocked(c: nat)

  function Initial(producers: nat, consumers: nat): System {
    System(EMPTY, seq(producers, _ => None), seq(consumers, _ => false), [], [], false, false)
  }

  predicate WellFormed(s: System) {
    InRange(s.ring)
  }

  /** A thread that is not at that point of its code does nothing. */
  function Execute(s: System, e: Step): (r: System)
    requires WellFormed(s)
    ensures WellFormed(r) && |r.producers| == |s.producers| && |r.consumers| == |s.consumers|
  {
    match e
    case TestFull(p, x) =>
      if p >= |s.producers| || s.producers[p].Some? || s.ring.free == 0 then s
      else s.(producers := s.producers[p := Some(x)])
    case PostLocked(p) =>
      if p >= |s.producers| || s.producers[p].None? then s
      else
        s.(ring := Post(s.ring, s.producers[p].value),
           producers := s.producers[p := None],
           posted := s.posted + [s.producers[p].value],
           lost := s.lost || s.ring.slots[s.ring.write].Some?)
    case TestEmpty(c) =>
      if c >= |s.consumers| || s.consumers[c] || s.ring.free >= MAX_QUEUE then s
      else s.(consumers := s.consumers[c := true])
    case PendLocked(c) =>
      if c >= |s.consumers| || !s.consumers[c] then s
      else
        var x := s.ring.slots[s.ring.read];
        s.(ring := Pend(s.ring),
           consumers := s.consumers[c := false],
           delivered := if x.Some? then s.delivered + [x.value] else s.delivered,
           crashed := s.crashed || x.None?)
  }

  function Run(s: System, es: seq<Step>): (r: System)
    requires WellFormed(s)
    ensures WellFormed(r) && |r.producers| == |s.producers| && |r.consumers| == |s.consumers|
    decreases |es|
  {
    if es == [] then s else Execute(Run(s, es[..|es| - 1]), es[|es| - 1])
  }

  // ----- one producer, one consumer -----

  /** The ring holds the `items` from the read index on and nothing else. */
  predicate Holds(q: Ring, items: seq<int>) {
    && InRange(q) && q.free == MAX_QUEUE - |items| && q.free >= 0
    && q.write == (q.read + |items|) % MAX_QUEUE
    && forall i {:trigger q.slots[i]} :: 0 <= i < MAX_QUEUE ==>
         q.slots[i] == var d := (i - q.read) % MAX_QUEUE; if d < |items| then Some(items[d]) else None
  }

  /** A FIFO: what was posted is what was delivered and what is stored, and no test has gone stale. */
  predicate Fifo(s: System) {
    && !s.lost && !s.crashed
    && s.delivered <= s.posted && Holds(s.ring, s.posted[|s.delivered|..])
    && |s.producers| <= 1 && (|s.producers| == 1 && s.producers[0].Some? ==> s.ring.free > 0)
    && (|s.producers| == 1 ==> |s.consumers| <= 1)
    && (|s.producers| == 0 ==> s.posted == [])
    && (forall c :: 0 <= c < |s.consumers| && s.consumers[c] ==> s.ring.free < MAX_QUEUE)
  }

  /** The slot `n` places behind the read index. */
  lemma Places(read: nat, n: nat, i: nat)
    requires read < MAX_QUEUE && n < MAX_QUEUE && i < MAX_QUEUE
    ensures i == (read + n) % MAX_QUEUE <==> (i - read) % MAX_QUEUE == n
    ensures Next((read + n) % MAX_QUEUE) == (read + n + 1) % MAX_QUEUE
  {
  }

  lemma HoldsPost(q: Ring, items: seq<int>, x: int)
    requires Holds(q, items) && q.free > 0
    ensures Holds(Post(q, x), items + [x]) && q.slots[q.write].None?
  {
    var r, all := Post(q, x), items + [x];
    forall i | 0 <= i < MAX_QUEUE
      ensures r.slots[i] == var d := (i - r.read) % MAX_QUEUE; if d < |all| then Some(all[d]) else None
    {
      Places(q.read, |items|, i);
      assert q.slots[i] == var d := (i - q.read) % MAX_QUEUE; if d < |items| then Some(items[d]) else None;
    }
    Places(q.read, |items|, q.write);
  }

  /** One step of the read index brings every other slot one nearer and puts the slot it left behind all others. */
  lemma NextDistance(i: nat, read: nat)
    requires i < MAX_QUEUE && read < MAX_QUEUE
    ensures (i - Next(read)) % MAX_QUEUE == if i == read then MAX_QUEUE - 1 else (i - read) % MAX_QUEUE - 1
  {
  }

  lemma HoldsPend(q: Ring, items: seq<int>)
    requires Holds(q, items) && items != []
    ensures Holds(Pend(q), items[1..]) && q.slots[q.read] == Some(items[0])
  {
    var r, rest := Pend(q), items[1..];
    forall i | 0 <= i < MAX_QUEUE
      ensures r.slots[i] == var d := (i - r.read) % MAX_QUEUE; if d < |rest| then Some(rest[d]) else None
    {
      NextDistance(i, q.read);
      assert q.slots[i] == var d := (i - q.read) % MAX_QUEUE; if d < |items| then Some(items[d]) else None;
    }
  }

  lemma ExecuteKeepsFifo(s: System, e: Step)
    requires Fifo(s)
    ensures Fifo(Execute(s, e))
  {
    var items := s.posted[|s.delivered|..];
    match e {
      case PostLocked(p) =>
        if p < |s.producers| && s.producers[p].Some? {
          var x := s.producers[p].value;
          HoldsPost(s.ring, items, x);
          assert (s.posted + [x])[|s.delivered|..] == items + [x];
        }
      case PendLocked(c) =>
        if c < |s.consumers| && s.consumers[c] {
          HoldsPend(s.ring, items);
          assert s.posted[|s.delivered| + 1..] == items[1..];
          assert s.delivered + [items[0]] <= s.posted;
        }
      case _ =>
    }
  }

  lemma InitialFifo(producers: nat, consumers: nat)
    requires producers <= 1 && (producers == 1 ==> consumers <= 1)
    ensures Fifo(Initial(producers, consumers))
  {
  }

  /**
   * One producer and one consumer, interleaved in any way: nothing is overwritten, no null slot is read,
   * and the items delivered are the items posted, in order and each once, except for those still stored.
   */
  lemma {:induction false} OneToOne(producers: nat, consumers: nat, es: seq<Step>)
    requires producers <= 1 && (producers == 1 ==> consumers <= 1)
    ensures Fifo(Run(Initial(producers, consumers), es))
    decreases |es|
  {
    if es == [] {
      InitialFifo(producers, consumers);
    } else {
      OneToOne(producers, consumers, es[..|es| - 1]);
      ExecuteKeepsFifo(Run(Initial(producers, consumers), es[..|es| - 1]), es[|es| - 1]);
    }
  }

  // ----- more threads -----

  /** No run goes wrong. */
  ghost predicate Safe(producers: nat, consumers: nat) {
    forall es: seq<Step> :: var s := Run(Initial(producers, consumers), es); !s.lost && !s.crashed
  }

  lemma RunTwo(s: System, es: seq<Step>, a: Step, b: Step)
    requires WellFormed(s)
    ensures Run(s, es + [a, b]) == Execute(Execute(Run(s, es), a), b)
  {
    assert (es + [a, b])[..|es| + 1] == es + [a] && (es + [a])[..|es|] == es;
  }

  /** Two consumers: both see the one item, and the second reads a null slot. */
  lemma TwoConsumersCrash(producers: nat, consumers: nat)
    requires producers >= 1 && consumers >= 2
    ensures !Safe(producers, consumers)
  {
    var s0 := Initial(producers, consumers);
    var es := [TestFull(0, 7), PostLocked(0)];
    RunTwo(s0, [], TestFull(0, 7), PostLocked(0));
    assert [] + es == es;
    RunTwo(s0, es, TestEmpty(0), TestEmpty(1));
    RunTwo(s0, es + [TestEmpty(0), TestEmpty(1)], PendLocked(0), PendLocked(1));
    var bad := Run(s0, es + [TestEmpty(0), TestEmpty(1)] + [PendLocked(0), PendLocked(1)]);
    assert bad.crashed;
  }

  /** `k` items posted by the first producer alone. */
  function Fill(k: nat): seq<Step> {
    if k == 0 then [] else Fill(k - 1) + [TestFull(0, k), PostLocked(0)]
  }

  function Numbers(k: nat): (r: seq<int>)
    ensures |r| == k
  {
    if k == 0 then [] else Numbers(k - 1) + [k]
  }

  lemma {:induction false} Filled(producers: nat, consumers: nat, k: nat)
    requires producers >= 1 && k <= MAX_QUEUE
    ensures var s := Run(Initial(producers, consumers), Fill(k));
      Holds(s.ring, Numbers(k)) && s.producers == Initial(producers, consumers).producers
    decreases k
  {
    if k > 0 {
      Filled(producers, consumers, k - 1);
      RunTwo(Initial(producers, consumers), Fill(k - 1), TestFull(0, k), PostLocked(0));
      var s := Run(Initial(producers, consumers), Fill(k - 1));
      OnePost(s, k);
      HoldsPost(s.ring, Numbers(k - 1), k);
    }
  }

  lemma OnePost(s: System, x: int)
    requires WellFormed(s) && s.producers != [] && s.producers[0].None? && s.ring.free > 0
    ensures var r := Execute(Execute(s, TestFull(0, x)), PostLocked(0));
      r.ring == Post(s.ring, x) && r.producers == s.producers
  {
  }

  lemma LastSlotTaken(q: Ring, items: seq<int>, x: int)
    requires Holds(q, items) && q.free == 1
    ensures var full := Post(q, x); full.slots[full.write].Some?
  {
    HoldsPost(q, items, x);
    var full := Post(q, x);
    assert full.slots[full.write].Some?;
  }

  /** Two producers past the test when one slot is free. */
  lemma TwoPosts(s: System, x: int)
    requires WellFormed(s) && |s.producers| >= 2 && s.producers[0].None? && s.producers[1].None? && s.ring.free == 1
    requires var full := Post(s.ring, x); full.slots[full.write].Some?
    ensures Execute(Execute(Execute(Execute(s, TestFull(0, x)), TestFull(1, x)), PostLocked(0)), PostLocked(1)).lost
  {
    var t := Execute(Execute(s, TestFull(0, x)), TestFull(1, x));
    assert t.producers[0] == t.producers[1] == Some(x) && t.ring == s.ring;
  }

  /** Two producers: both see the last free slot, and the second overwrites the oldest item. */
  lemma TwoProducersLose(producers: nat, consumers: nat)
    requires producers >= 2
    ensures !Safe(producers, consumers)
  {
    var s0, es, k := Initial(producers, consumers), Fill(MAX_QUEUE - 1), MAX_QUEUE - 1;
    Filled(producers, consumers, k);
    LastSlotTaken(Run(s0, es).ring, Numbers(k), 0);
    TwoPosts(Run(s0, es), 0);
    RunTwo(s0, es, TestFull(0, 0), TestFull(1, 0));
    RunTwo(s0, es + [TestFull(0, 0), TestFull(1, 0)], PostLocked(0), PostLocked(1));
    assert Run(s0, es + [TestFull(0, 0), TestFull(1, 0)] + [PostLocked(0), PostLocked(1)]).lost;
  }

  /** The queue is safe for exactly one producer and one consumer; without a producer nothing ever happens. */
  lemma SafeExactly(producers: nat, consumers: nat)
    ensures Safe(producers, consumers) <==> producers == 0 || (producers == 1 && consumers <= 1)
  {
    if producers == 0 || (producers == 1 && consumers <= 1) {
      forall es: seq<Step> ensures var s := Run(Initial(producers, consumers), es); !s.lost && !s.crashed {
        OneToOne(producers, consumers, es);
      }
    } else if producers >= 2 {
      TwoProducersLose(producers, consumers);
    } else {
      TwoConsumersCrash(producers, consumers);
    }
  }

  // ----- the class -----

  class CProtocolQueue {
    var freeList: int
    var writeIndex: nat
    var readIndex: nat
    const slots: array<Option<int>>

    ghost predicate Valid()
      reads this, slots
    {
      slots.Length == MAX_QUEUE && InRange(State())
    }

    ghost function State(): Ring
      reads this, slots
    {
      Ring(freeList, writeIndex, readIndex, slots[..])
    }

    constructor ()
      ensures Valid() && fresh(slots) && State() == EMPTY
    {
      freeList, writeIndex, readIndex := MAX_QUEUE, 0, 0;
      slots := new Option<int>[MAX_QUEUE](_ => None);
      new;
      assert slots[..] == EMPTY.slots;
    }

    /** The test of QueuePost, before the lock. */
    method IsFull() returns (full: bool)
      requires Valid()
      ensures full == (State().free == 0)
    {
      full := freeList == 0;
    }

    /** QueuePost under the lock. */
    method PostUnderLock(x: int)
      requires Valid()
      modifies this, slots
      ensures Valid() && State() == Post(old(State()), x)
    {
      slots[writeIndex] := Some(x);
      writeIndex := writeIndex + 1;
      if writeIndex == MAX_QUEUE {
        writeIndex := 0;
      }
      freeList := freeList - 1;
    }

    /** The test of QueuePend, before the lock. */
    method IsEmpty() returns (empty: bool)
      requires Valid()
      ensures empty == (State().free >= MAX_QUEUE)
    {
      empty := freeList >= MAX_QUEUE;
    }

    /** QueuePend under the lock: the item is copied, deleted and its slot cleared. */
    method PendUnderLock() returns (x: Option<int>)
      requires Valid()
      modifies this, slots
      ensures Valid() && State() == Pend(old(State())) && x == old(State()).slots[old(readIndex)]
    {
      x := slots[readIndex];
      slots[readIndex] := None;
      readIndex := readIndex + 1;
      if readIndex == MAX_QUEUE {
        readIndex := 0;
      }
      freeList := freeList + 1;
    }

    /** Without another thread in between, posting and pending are a bounded FIFO. */
    method QueuePost(x: int, ghost items: seq<int>) returns (ok: bool)
      requires Valid() && Holds(State(), items)
      modifies this, slots
      ensures Valid() && ok == (|items| < 20) && Holds(State(), if ok then items + [x] else items)
    {
      var full := IsFull();
      ok := !full;
      if ok {
        HoldsPost(State(), items, x);
        PostUnderLock(x);
      }
    }

    method QueuePend(ghost items: seq<int>) returns (x: Option<int>)
      requires Valid() && Holds(State(), items)
      modifies this, slots
      ensures Valid() && Holds(State(), if items == [] then [] else items[1..])
      ensures x == if items == [] then None else Some(items[0])
    {
      var empty := IsEmpty();
      x := None;
      if !empty {
        HoldsPend(State(), items);
        x := PendUnderLock();
      }
    }
  }
}
