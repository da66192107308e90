// The CSI capture driver's buffer rotation: three lists, two address registers, one interrupt.
module CsiCapture {
  import opened Wrappers
  import opened Sequences

  /** unsigned int and u32 wrap here. */
  const WRAP: nat := 0x1_0000_0000

  /** A video buffer and its bus address. */
  datatype Buffer = Buffer(id: nat, phys: nat)

  datatype Outcome = Done(sequence: nat) | Error

  /** One vb2_buffer_done call. */
  datatype Returned = Returned(buffer: Buffer, outcome: Outcome)

  /** The status bits the handler looks at. */
  datatype Status = Status(addressChange: bool, fb1: bool, fb2: bool)

  datatype Event =
    | Queue(buffer: Buffer)
    | Start(discardBuffer: Option<nat>)
    | Interrupt(status: Status)
    | Stop

  // ----- what the rotation does -----

  /**
   * The rotation without lists, buffer numbers and registers: two places the hardware fills in turn,
   * each with a user's buffer or nothing, and the buffers waiting behind them.
   */
  datatype Pipeline = Pipeline(
    streaming: bool,
    front: Option<Buffer>,
    back: Option<Buffer>,
    pending: seq<Buffer>,
    turn: nat,
    skip: nat,
    frames: nat,
    log: seq<Returned>)

  const INITIAL: Pipeline := Pipeline(false, None, None, [], 0, 0, 0, [])

  function Held(place: Option<Buffer>): seq<Buffer> {
    if place.Some? then [place.value] else []
  }

  function Fail(buffers: seq<Buffer>): (r: seq<Returned>)
    ensures |r| == |buffers|
  {
    if buffers == [] then [] else [Returned(buffers[0], Error)] + Fail(buffers[1..])
  }

  /** A frame is complete: the front place gives its buffer back and is filled from the waiting buffers. */
  function Complete(m: Pipeline, failed: bool): Pipeline {
    m.(front := m.back,
       back := if m.pending == [] then None else Some(m.pending[0]),
       pending := if m.pending == [] then [] else m.pending[1..],
       turn := 1 - (m.turn % 2),
       frames := m.frames + 1,
       log := m.log + if m.front.None? then []
           else [Returned(m.front.value, if failed then Error else Done(m.frames % WRAP))])
  }

  /** Completions count only for the place whose turn it is, and only once the frames to skip are gone. */
  function OnInterrupt(m: Pipeline, s: Status): Pipeline {
    if !m.streaming then m
    else
      var n := m.(skip := if s.addressChange then (m.skip + 1) % WRAP else m.skip);
      if s.fb1 == s.fb2 || n.turn != (if s.fb1 then 0 else 1) then n
      else if n.skip > 0 then n.(skip := n.skip - 1)
      else Complete(n, false)
  }

  /** Starting takes two waiting buffers, or fails. */
  function OnStart(m: Pipeline, discardBuffer: Option<nat>): Pipeline {
    if m.streaming || |m.pending| < 2 || discardBuffer.None? then m
    else m.(streaming := true, front := Some(m.pending[0]), back := Some(m.pending[1]), pending := m.pending[2..],
            turn := 0, skip := 3)
  }

  function OnStop(m: Pipeline): Pipeline {
    if !m.streaming then m
    else m.(streaming := false, front := None, back := None, pending := [],
            log := m.log + Fail(Held(m.front) + Held(m.back) + m.pending))
  }

  function Step(m: Pipeline, e: Event): Pipeline {
    match e
    case Queue(b) => m.(pending := m.pending + [b])
    case Start(d) => OnStart(m, d)
    case Interrupt(s) => OnInterrupt(m, s)
    case Stop => OnStop(m)
  }

  function Run(m: Pipeline, es: seq<Event>): Pipeline
    decreases |es|
  {
    if es == [] then m else Step(Run(m, es[..|es| - 1]), es[|es| - 1])
  }

  // ----- every queued buffer comes back once, in order -----

  function Buffers(log: seq<Returned>): (r: seq<Buffer>)
    ensures |r| == |log|
  {
    if log == [] then [] else [log[0].buffer] + Buffers(log[1..])
  }

  lemma {:induction false} BuffersAppend(a: seq<Returned>, b: seq<Returned>)
    ensures Buffers(a + b) == Buffers(a) + Buffers(b)
    decreases |a|
  {
    if a == [] {
      assert a + b == b;
    } else {
      BuffersAppend(a[1..], b);
      assert (a + b)[1..] == a[1..] + b;
    }
  }

  lemma {:induction false} BuffersFail(s: seq<Buffer>)
    ensures Buffers(Fail(s)) == s
    decreases |s|
  {
    if s != [] {
      BuffersFail(s[1..]);
      assert Fail(s)[1..] == Fail(s[1..]);
    }
  }

  function QueuedBy(es: seq<Event>): seq<Buffer>
    decreases |es|
  {
    if es == [] then []
    else QueuedBy(es[..|es| - 1]) + if es[|es| - 1].Queue? then [es[|es| - 1].buffer] else []
  }

  /** The buffers given back, then those in the two places, then the waiting ones. */
  function Accounted(m: Pipeline): seq<Buffer> {
    Buffers(m.log) + (Held(m.front) + Held(m.back) + m.pending)
  }

  /** Places are empty while the stream is stopped. */
  predicate Settled(m: Pipeline) {
    !m.streaming ==> m.front.None? && m.back.None?
  }

  lemma CompleteKeeps(m: Pipeline, failed: bool)
    ensures Accounted(Complete(m, failed)) == Accounted(m)
  {
    var n := Complete(m, failed);
    assert Held(n.back) + n.pending == m.pending;
    Regroup(Held(m.back), Held(n.back), n.pending);
    Regroup(Held(m.front), Held(m.back), m.pending);
    Regroup(Buffers(m.log), Held(m.front), Held(m.back) + m.pending);
    var given := n.log[|m.log|..];
    assert n.log == m.log + given;
    BuffersAppend(m.log, given);
    assert Buffers(given) == Held(m.front);
  }

  lemma StartKeeps(m: Pipeline, d: Option<nat>)
    requires Settled(m)
    ensures Settled(OnStart(m, d)) && Accounted(OnStart(m, d)) == Accounted(m)
  {
    if OnStart(m, d) != m {
      assert [m.pending[0]] + [m.pending[1]] + m.pending[2..] == [] + [] + m.pending;
    }
  }

  lemma StopKeeps(m: Pipeline)
    requires Settled(m)
    ensures Settled(OnStop(m)) && Accounted(OnStop(m)) == Accounted(m)
  {
    if m.streaming {
      var held := Held(m.front) + Held(m.back) + m.pending;
      BuffersAppend(m.log, Fail(held));
      BuffersFail(held);
      assert Accounted(OnStop(m)) == Buffers(m.log) + held + ([] + [] + []);
    }
  }

  lemma StepAccounts(m: Pipeline, e: Event)
    requires Settled(m)
    ensures Settled(Step(m, e))
    ensures Accounted(Step(m, e)) == Accounted(m) + if e.Queue? then [e.buffer] else []
  {
    match e {
      case Queue(b) =>
        Regroup(Held(m.front) + Held(m.back), m.pending, [b]);
        Regroup(Buffers(m.log), Held(m.front) + Held(m.back) + m.pending, [b]);
      case Start(d) => StartKeeps(m, d);
      case Interrupt(s) =>
        CompleteKeeps(m.(skip := if s.addressChange then (m.skip + 1) % WRAP else m.skip), false);
      case Stop => StopKeeps(m);
    }
  }

  /** Over any run the buffers queued are those returned, those being filled and those waiting, in this order. */
  lemma {:induction false} Conservation(es: seq<Event>)
    ensures Settled(Run(INITIAL, es)) && Accounted(Run(INITIAL, es)) == QueuedBy(es)
    decreases |es|
  {
    if es != [] {
      Conservation(es[..|es| - 1]);
      StepAccounts(Run(INITIAL, es[..|es| - 1]), es[|es| - 1]);
    }
  }

  /** When a stream has been stopped every buffer queued so far has come back exactly once, in the order queued. */
  lemma AllReturned(es: seq<Event>)
    requires Run(INITIAL, es).streaming
    ensures Buffers(Run(INITIAL, es + [Stop]).log) == QueuedBy(es)
  {
    assert (es + [Stop])[..|es|] == es;
    Conservation(es + [Stop]);
    var m := Run(INITIAL, es + [Stop]);
    assert Accounted(m) == Buffers(m.log);
    assert QueuedBy(es + [Stop]) == QueuedBy(es);
  }

  // ----- sequence numbers -----

  /** Until the frame counter wraps, the numbers of done frames strictly increase. */
  predicate Increasing(m: Pipeline) {
    m.frames <= WRAP ==>
      && (forall i :: 0 <= i < |m.log| && m.log[i].outcome.Done? ==> m.log[i].outcome.sequence < m.frames)
      && (forall i, j :: 0 <= i < j < |m.log| && m.log[i].outcome.Done? && m.log[j].outcome.Done?
            ==> m.log[i].outcome.sequence < m.log[j].outcome.sequence)
  }

  lemma {:induction false} FailFails(s: seq<Buffer>)
    ensures forall i :: 0 <= i < |s| ==> Fail(s)[i].outcome.Error?
    decreases |s|
  {
    if s != [] { FailFails(s[1..]); }
  }

  lemma {:induction false} SequencesIncrease(es: seq<Event>)
    ensures Increasing(Run(INITIAL, es))
    decreases |es|
  {
    if es != [] {
      SequencesIncrease(es[..|es| - 1]);
      StepIncreases(Run(INITIAL, es[..|es| - 1]), es[|es| - 1]);
    }
  }

  lemma StepIncreases(m: Pipeline, e: Event)
    requires Increasing(m)
    ensures Increasing(Step(m, e))
  {
    if e.Stop? {
      FailFails(Held(m.front) + Held(m.back) + m.pending);
    }
  }

  // ----- which frame fills which buffer -----

  function Completions(m: Pipeline, n: nat): Pipeline
    decreases n
  {
    if n == 0 then m else Completions(Complete(m, false), n - 1)
  }

  /**
   * The buffer that waits behind `k` others is given back by the completion number `k + 3`, with its frame's
   * number.
   */
  lemma {:induction false} FilledInTurn(m: Pipeline, k: nat)
    requires k < |m.pending|
    ensures Completions(m, k + 3).log
         == Completions(m, k + 2).log + [Returned(m.pending[k], Done((m.frames + k + 2) % WRAP))]
    decreases k
  {
    var next := Complete(m, false);
    if k > 0 {
      FilledInTurn(next, k - 1);
      assert Completions(m, k + 3) == Completions(next, k + 2) && Completions(m, k + 2) == Completions(next, k + 1);
    } else {
      var second := Complete(next, false);
      assert Completions(m, 2) == Completions(next, 1) == Completions(second, 0) == second;
      assert Completions(m, 3) == Completions(next, 2) == Completions(second, 1);
      assert Completions(second, 1) == Completions(Complete(second, false), 0) == Complete(second, false);
    }
  }

  // ----- which report completes a frame -----

  /** Only the bit of this place is set. */
  predicate Reports(s: Status, place: nat) {
    (s.fb1 <==> place == 0) && (s.fb2 <==> place == 1)
  }

  /**
   * With nothing to skip, the report of the place in turn gives back exactly its buffer, done, with the number
   * of its frame, and the other place is next; any other report changes nothing.
   */
  lemma TurnReported(m: Pipeline, s: Status)
    requires m.streaming && m.turn < 2 && m.skip == 0 && !s.addressChange
    ensures var n := OnInterrupt(m, s);
      if Reports(s, m.turn) then
        && n.log == m.log + (if m.front.Some? then [Returned(m.front.value, Done(m.frames % WRAP))] else [])
        && n.turn == 1 - m.turn && n.frames == m.frames + 1 && n.front == m.back
      else n == m
  {
  }

  /** While frames are to be skipped, that report only counts down, and any other again changes nothing. */
  lemma TurnSkipped(m: Pipeline, s: Status)
    requires m.streaming && m.turn < 2 && m.skip > 0 && !s.addressChange
    ensures OnInterrupt(m, s) == if Reports(s, m.turn) then m.(skip := m.skip - 1) else m
  {
  }

  /** An address error makes the driver skip one frame more, starting with the one reported with it. */
  lemma AddressChanged(m: Pipeline, s: Status)
    requires m.streaming && s.addressChange && m.skip + 1 < WRAP
    ensures OnInterrupt(m, s) == OnInterrupt(m.(skip := m.skip + 1), s.(addressChange := false))
  {
  }

  /** The hardware fills the places in turn, from place 0 on, and reports each frame. */
  function Alternating(n: nat): (r: seq<Event>)
    ensures |r| == n
  {
    if n == 0 then [] else Alternating(n - 1) + [Interrupt(Status(false, (n - 1) % 2 == 0, (n - 1) % 2 == 1))]
  }

  lemma {:induction false} OneMoreCompletion(m: Pipeline, n: nat)
    ensures Completions(m, n + 1) == Complete(Completions(m, n), false)
    decreases n
  {
    var next := Complete(m, false);
    if n > 0 {
      OneMoreCompletion(next, n - 1);
      assert Completions(m, n + 1) == Completions(next, n) && Completions(m, n) == Completions(next, n - 1);
    } else {
      assert Completions(m, 1) == Completions(next, 0);
    }
  }

  lemma {:induction false} TurnsAlternate(m: Pipeline, n: nat)
    requires m.streaming && m.turn == 0 && m.skip == 0
    ensures var r := Completions(m, n); r.streaming && r.turn == n % 2 && r.skip == 0
    decreases n
  {
    if n > 0 {
      TurnsAlternate(m, n - 1);
      OneMoreCompletion(m, n - 1);
    }
  }

  lemma {:induction false} LastReport(m: Pipeline, n: nat)
    requires n > 0
    ensures Run(m, Alternating(n))
         == OnInterrupt(Run(m, Alternating(n - 1)), Status(false, (n - 1) % 2 == 0, (n - 1) % 2 == 1))
  {
    assert Alternating(n)[..n - 1] == Alternating(n - 1);
  }

  /**
   * A stream that has just started: the driver waits for place 0 to be reported three times, which takes the
   * first six frames, and from then on every report completes a frame.
   */
  function AfterReports(m: Pipeline, n: nat): Pipeline {
    if n < 6 then m.(skip := 3 - (n + 1) / 2) else Completions(m.(skip := 0), n - 6)
  }

  lemma {:induction false} NextReport(m: Pipeline, n: nat)
    requires m.streaming && m.turn == 0 && m.skip == 3
    ensures OnInterrupt(AfterReports(m, n), Status(false, n % 2 == 0, n % 2 == 1)) == AfterReports(m, n + 1)
  {
    if n >= 6 {
      TurnsAlternate(m.(skip := 0), n - 6);
      OneMoreCompletion(m.(skip := 0), n - 6);
    }
  }

  lemma {:induction false} AlternatingRun(m: Pipeline, n: nat)
    requires m.streaming && m.turn == 0 && m.skip == 3
    ensures Run(m, Alternating(n)) == AfterReports(m, n)
    decreases n
  {
    if n > 0 {
      AlternatingRun(m, n - 1);
      LastReport(m, n);
      NextReport(m, n - 1);
    }
  }

  /** Buffers given back as done with consecutive numbers. */
  function Numbered(buffers: seq<Buffer>, first: nat): (r: seq<Returned>)
    ensures |r| == |buffers|
    ensures forall i {:trigger r[i]} :: 0 <= i < |r| ==> r[i] == Returned(buffers[i], Done((first + i) % WRAP))
  {
    seq(|buffers|, (i: nat) requires i < |buffers| => Returned(buffers[i], Done((first + i) % WRAP)))
  }

  /** What the places hold and what waits for them; there is no gap. */
  function Line(m: Pipeline): seq<Buffer> {
    Held(m.front) + Held(m.back) + m.pending
  }

  predicate Packed(m: Pipeline) {
    (m.front.None? ==> m.back.None?) && (m.back.None? ==> m.pending == [])
  }

  lemma NumberedMore(b: Buffer, rest: seq<Buffer>, k: nat, first: nat)
    requires k <= |rest|
    ensures Numbered(([b] + rest)[..k + 1], first) == [Returned(b, Done(first % WRAP))] + Numbered(rest[..k], first + 1)
  {
    assert ([b] + rest)[..k + 1] == [b] + rest[..k];
  }

  lemma CompleteTakes(m: Pipeline)
    requires Packed(m) && Line(m) != []
    ensures var n := Complete(m, false);
      && m.front.Some? && Packed(n) && Line(m) == [m.front.value] + Line(n) && n.frames == m.frames + 1
      && n.log == m.log + [Returned(m.front.value, Done(m.frames % WRAP))]
  {
    var n := Complete(m, false);
    assert Line(m) == [m.front.value] + Line(n);
  }

  lemma {:induction false} CompletionsGive(m: Pipeline, k: nat)
    requires Packed(m) && k <= |Line(m)|
    ensures Completions(m, k).log == m.log + Numbered(Line(m)[..k], m.frames)
    decreases k
  {
    if k == 0 {
      AppendNothing(m.log);
    } else {
      var next := Complete(m, false);
      CompleteTakes(m);
      CompletionsGive(next, k - 1);
      NumberedMore(m.front.value, Line(next), k - 1, m.frames);
      Regroup(m.log, [Returned(m.front.value, Done(m.frames % WRAP))], Numbered(Line(next)[..k - 1], m.frames + 1));
    }
  }

  /**
   * From the start of a stream on, after six skipped frames each further report gives back the next of the
   * buffers that waited, in the order queued and with consecutive numbers.
   */
  lemma StreamFills(m: Pipeline, discardBuffer: Option<nat>, k: nat)
    requires !m.streaming && 2 <= |m.pending| && discardBuffer.Some? && k <= |m.pending|
    ensures Run(Step(m, Start(discardBuffer)), Alternating(6 + k)).log == m.log + Numbered(m.pending[..k], m.frames)
  {
    var s := OnStart(m, discardBuffer);
    AlternatingRun(s, 6 + k);
    assert Line(s.(skip := 0)) == m.pending;
    CompletionsGive(s.(skip := 0), k);
  }

  // ----- the driver -----

  /** What an entry of the active list carries: a user's buffer or one of the two discard entries. */
  datatype Frame = User(buffer: Buffer) | Spare(which: nat)

  datatype Entry = Entry(bufnum: nat, frame: Frame)

  const ENOBUFS := -105
  const ENOMEM := -12

  function Spares(active: seq<Entry>): (r: seq<nat>)
    ensures |r| <= |active|
  {
    if active == [] then []
    else (if active[0].frame.Spare? then [active[0].frame.which] else []) + Spares(active[1..])
  }

  function UserBuffer(e: Entry): Option<Buffer> {
    if e.frame.User? then Some(e.frame.buffer) else None
  }

  function Users(active: seq<Entry>): seq<Buffer> {
    if active == [] then [] else Held(UserBuffer(active[0])) + Users(active[1..])
  }

  lemma UsersOfTwo(active: seq<Entry>)
    requires |active| == 2
    ensures Users(active) == Held(UserBuffer(active[0])) + Held(UserBuffer(active[1]))
  {
    assert active[1..][0] == active[1] && active[1..][1..] == [];
    assert Users(active[1..]) == Held(UserBuffer(active[1])) + Users([]);
  }

  lemma {:induction false} FailMore(s: seq<Buffer>, b: Buffer)
    ensures Fail(s) + [Returned(b, Error)] == Fail(s + [b])
    decreases |s|
  {
    if s == [] {
      assert [b][1..] == [];
    } else {
      FailMore(s[1..], b);
      assert (s + [b])[1..] == s[1..] + [b];
    }
  }

  lemma FailAppend(log: seq<Returned>, s: seq<Buffer>, b: Buffer)
    ensures log + Fail(s) + [Returned(b, Error)] == log + Fail(s + [b])
  {
    FailMore(s, b);
    Regroup(log, Fail(s), [Returned(b, Error)]);
  }

  lemma {:induction false} FailBoth(a: seq<Buffer>, b: seq<Buffer>)
    ensures Fail(a + b) == Fail(a) + Fail(b)
    decreases |a|
  {
    if a == [] {
      assert [] + b == b;
    } else {
      assert (a + b)[1..] == a[1..] + b;
      FailBoth(a[1..], b);
    }
  }

  lemma FailTwice(log: seq<Returned>, a: seq<Buffer>, b: seq<Buffer>)
    ensures (log + Fail(a)) + Fail(b) == log + Fail(a + b)
  {
    FailBoth(a, b);
    Regroup(log, Fail(a), Fail(b));
  }

  /** The active list's discard entries as the list turns. */
  lemma SparesOfTwo(active: seq<Entry>)
    requires |active| == 2
    ensures |Spares(active)| == (if active[0].frame.Spare? then 1 else 0) + if active[1].frame.Spare? then 1 else 0
  {
    assert active[1..][0] == active[1] && active[1..][1..] == [];
  }

  /** One entry leaves the two and another one joins them. */
  lemma Rotated(active: seq<Entry>, last: Entry)
    requires |active| == 2
    ensures var after := active[1..] + [last];
      && |after| == 2 && after[0] == active[1] && after[1] == last
      && |Spares(after)| + (if active[0].frame.Spare? then 1 else 0)
         == |Spares(active)| + if last.frame.Spare? then 1 else 0
  {
    SparesOfTwo(active);
    SparesOfTwo(active[1..] + [last]);
  }

  class CsiDevice {
    var capture: seq<Buffer>
    var active: seq<Entry>
    var discard: seq<nat>
    var fb1: nat
    var fb2: nat
    var nextfb: nat
    var skipframe: nat
    var frameCount: nat
    var discardDma: nat
    ghost var streaming: bool
    ghost var frames: nat
    var log: seq<Returned>

    function Phys(e: Entry): nat
      reads `discardDma
    {
      if e.frame.User? then e.frame.buffer.phys else discardDma
    }

    function Register(bufnum: nat): nat
      reads `fb1, `fb2
    {
      if bufnum == 1 then fb2 else fb1
    }

    /**
     * While streaming: two active entries, for the next frame and the one after it, each with its address in
     * its register; and the discard entries are all accounted for.
     */
    ghost predicate Valid()
      reads `streaming, `active, `nextfb, `fb1, `fb2, `discardDma, `discard, `frameCount, `frames
    {
      && (streaming ==>
            && |active| == 2 && nextfb < 2 && active[0].bufnum == nextfb && active[1].bufnum == 1 - nextfb
            && Register(nextfb) == Phys(active[0]) % WRAP && Register(1 - nextfb) == Phys(active[1]) % WRAP
            && |discard| + |Spares(active)| == 2)
      && (!streaming ==> active == [] && discard == [])
      && frameCount == frames % WRAP
    }

    /** The state without its lists, buffer numbers and registers. */
    ghost function Model(): Pipeline
      requires Valid()
      reads this
    {
      Pipeline(streaming, if streaming then UserBuffer(active[0]) else None,
               if streaming then UserBuffer(active[1]) else None,
               capture, nextfb, skipframe, frames, log)
    }

    constructor ()
      ensures Valid() && Model() == INITIAL
    {
      capture, active, discard := [], [], [];
      fb1, fb2, nextfb, skipframe, frameCount, discardDma := 0, 0, 0, 0, 0, 0;
      streaming, frames, log := false, 0, [];
    }

    /** mx6s_videobuf_queue. */
    method VideobufQueue(buffer: Buffer)
      requires Valid()
      modifies this
      ensures Valid() && Model() == Step(old(Model()), Queue(buffer))
    {
      capture := capture + [buffer];
    }

    /** mx6s_update_csi_buf. */
    method UpdateCsiBuf(phys: nat, bufnum: nat)
      modifies this`fb1, this`fb2
      ensures Register(bufnum) == phys % WRAP
      ensures if bufnum == 1 then fb1 == old(fb1) else fb2 == old(fb2)
    {
      if bufnum == 1 {
        fb2 := phys % WRAP;
      } else {
        fb1 := phys % WRAP;
      }
    }

    /** The first waiting buffer becomes active with this number. */
    method Activate(bufnum: nat)
      requires capture != []
      modifies this`capture, this`active, this`fb1, this`fb2
      ensures capture == old(capture)[1..] && active == old(active) + [Entry(bufnum, User(old(capture)[0]))]
      ensures Register(bufnum) == old(capture)[0].phys % WRAP
      ensures if bufnum == 1 then fb1 == old(fb1) else fb2 == old(fb2)
    {
      var buffer := capture[0];
      UpdateCsiBuf(buffer.phys, bufnum);
      capture, active := capture[1..], active + [Entry(bufnum, User(buffer))];
    }

    /** mx6s_start_streaming; the queue hands over as many buffers as wait in the capture list. */
    method StartStreaming(count: nat, discardBuffer: Option<nat>) returns (code: int)
      requires Valid() && !streaming && count == |capture|
      modifies this
      ensures Valid() && Model() == Step(old(Model()), Start(discardBuffer))
      ensures code == if count < 2 then ENOBUFS else if discardBuffer.None? then ENOMEM else 0
    {
      code := 0;
      if count < 2 {
        code := ENOBUFS;
      } else if discardBuffer.None? {
        code := ENOMEM;
      } else {
        discardDma := discardBuffer.value;
        discard := discard + [0];
        discard := discard + [1];
        Activate(0);
        Activate(1);
        SparesOfTwo(active);
        nextfb := 0;
        skipframe := 3;
        streaming := true;
      }
    }

    /** At most one buffer came back since `before`, and its address is `address`. */
    ghost predicate GivesBack(before: seq<Returned>, address: nat)
      reads `log
    {
      log == before || (|log| == |before| + 1 && log[..|before|] == before
                        && log[|before|].buffer.phys % WRAP == address)
    }

    /**
     * mx6s_csi_frame_done. The branches that warn of an address mismatch and of an empty discard list
     * cannot be reached.
     */
    method FrameDone(bufnum: nat, err: bool)
      requires Valid() && streaming && bufnum == nextfb
      modifies this
      ensures Valid() && Model() == Complete(old(Model()), err)
      ensures GivesBack(old(log), old(Register(bufnum)))
    {
      Release(bufnum, err);
      ghost var last := Refill(bufnum);
      Rotated(old(active), last);
    }

    /** The entry whose frame is complete leaves the active list, and the counters move on. */
    method Release(bufnum: nat, err: bool)
      requires Valid() && streaming && bufnum == nextfb
      modifies this`discard, this`log, this`active, this`frameCount, this`nextfb, this`frames
      ensures active == old(active)[1..] && nextfb == 1 - bufnum && frames == old(frames) + 1
           && frameCount == frames % WRAP
      ensures |discard| == |old(discard)| + if old(active)[0].frame.Spare? then 1 else 0
      ensures var user := UserBuffer(old(active)[0]);
        log == old(log) + if user.None? then []
            else [Returned(user.value, if err then Error else Done(old(frames) % WRAP))]
    {
      GiveBack(active[0], bufnum, err);
      active := active[1..];
      frameCount, nextfb := (frameCount + 1) % WRAP, if bufnum == 0 then 1 else 0;
      frames := frames + 1;
    }

    /** Its first half: a discard entry goes back to its list, a user's buffer to the user. */
    method GiveBack(first: Entry, bufnum: nat, err: bool)
      requires Register(bufnum) == Phys(first) % WRAP
      modifies this`discard, this`log
      ensures |discard| == |old(discard)| + if first.frame.Spare? then 1 else 0
      ensures log == old(log) + if UserBuffer(first).None? then []
                                else [Returned(UserBuffer(first).value, if err then Error else Done(frameCount))]
    {
      AppendNothing(log);
      if first.frame.Spare? {
        discard := discard + [first.frame.which];
      } else {
        var phys := first.frame.buffer.phys;
        if bufnum == 1 {
          if fb2 != phys % WRAP { assert false; }
        } else {
          if fb1 != phys % WRAP { assert false; }
        }
        log := log + [Returned(first.frame.buffer, if err then Error else Done(frameCount))];
      }
    }

    /** The second half of mx6s_csi_frame_done: the next buffer, or a discard entry, takes the free place. */
    method Refill(bufnum: nat) returns (ghost last: Entry)
      requires capture == [] ==> discard != []
      modifies this`capture, this`discard, this`active, this`fb1, this`fb2
      ensures active == old(active) + [last] && last.bufnum == bufnum
        && Register(bufnum) == Phys(last) % WRAP
        && UserBuffer(last) == (if old(capture) == [] then None else Some(old(capture)[0]))
      ensures capture == if old(capture) == [] then [] else old(capture)[1..]
      ensures |discard| == |old(discard)| - if old(capture) == [] then 1 else 0
      ensures if bufnum == 1 then fb1 == old(fb1) else fb2 == old(fb2)
    {
      if capture == [] {
        if discard == [] {
          assert false;
        } else {
          last := Entry(bufnum, Spare(discard[0]));
          active, discard := active + [Entry(bufnum, Spare(discard[0]))], discard[1..];
          UpdateCsiBuf(discardDma, bufnum);
        }
      } else {
        last := Entry(bufnum, User(capture[0]));
        Activate(bufnum);
      }
    }

    /** mx6s_csi_irq_handler. A buffer given back is the one whose address stood in the register reported. */
    method IrqHandler(status: Status)
      requires Valid()
      modifies this
      ensures Valid() && Model() == Step(old(Model()), Interrupt(status))
      ensures log != old(log) ==> status.fb1 != status.fb2
      ensures GivesBack(old(log), old(Register(if status.fb1 then 0 else 1)))
    {
      if active != [] {
        if status.addressChange {
          skipframe := (skipframe + 1) % WRAP;
        }
        if status.fb1 && status.fb2 {
        } else if status.fb1 {
          if nextfb == 0 {
            if skipframe > 0 {
              skipframe := skipframe - 1;
            } else {
              FrameDone(0, false);
            }
          }
        } else if status.fb2 {
          if nextfb == 1 {
            if skipframe > 0 {
              skipframe := skipframe - 1;
            } else {
              FrameDone(1, false);
            }
          }
        }
      }
    }

    /** The user buffers the hardware holds go back as errors. */
    method FailActive()
      modifies this`active, this`log
      ensures active == [] && log == old(log) + Fail(Users(old(active)))
    {
      ghost var given: seq<Buffer> := [];
      AppendNothing(log);
      while active != []
        invariant given + Users(active) == Users(old(active)) && log == old(log) + Fail(given)
        decreases |active|
      {
        var entry := active[0];
        active := active[1..];
        if entry.frame.User? {
          log := log + [Returned(entry.frame.buffer, Error)];
          FailAppend(old(log), given, entry.frame.buffer);
          Regroup(given, [entry.frame.buffer], Users(active));
          given := given + [entry.frame.buffer];
        } else {
          assert [] + Users(active) == Users(active);
        }
      }
      AppendNothing(given);
    }

    /** And so do the waiting ones. */
    method FailWaiting()
      modifies this`capture, this`log
      ensures capture == [] && log == old(log) + Fail(old(capture))
    {
      ghost var given: seq<Buffer> := [];
      AppendNothing(log);
      while capture != []
        invariant given + capture == old(capture) && log == old(log) + Fail(given)
        decreases |capture|
      {
        var buffer := capture[0];
        capture := capture[1..];
        log := log + [Returned(buffer, Error)];
        FailAppend(old(log), given, buffer);
        Regroup(given, [buffer], capture);
        given := given + [buffer];
      }
      AppendNothing(given);
    }

    /** mx6s_stop_streaming. */
    method StopStreaming()
      requires Valid() && streaming
      modifies this
      ensures Valid() && Model() == Step(old(Model()), Stop)
      ensures fb1 == 0 && fb2 == 0
    {
      fb1, fb2 := 0, 0;
      FailTwice(log, Users(active), capture);
      UsersOfTwo(active);
      FailActive();
      FailWaiting();
      discard, streaming := [], false;
    }

    /** One event. The queue starts only a stopped stream and stops only a running one. */
    method Drive(e: Event)
      requires Valid()
      modifies this
      ensures Valid() && Model() == Step(old(Model()), e)
    {
      match e {
        case Queue(buffer) => VideobufQueue(buffer);
        case Start(discardBuffer) => if active == [] { var _ := StartStreaming(|capture|, discardBuffer); }
        case Interrupt(status) => IrqHandler(status);
        case Stop => if active != [] { StopStreaming(); }
      }
    }

    /** Whatever happens, the driver is in the state the rotation is in. */
    method DriveAll(es: seq<Event>)
      requires Valid()
      modifies this
      ensures Valid() && Model() == Run(old(Model()), es)
    {
      var i := 0;
      while i < |es|
        invariant 0 <= i <= |es| && Valid() && Model() == Run(old(Model()), es[..i])
      {
        assert es[..i + 1][..i] == es[..i];
        Drive(es[i]);
        i := i + 1;
      }
      assert es[..i] == es;
    }
  }
}
