// The receive loop: bytes arrive in chunks, and a frame is looked for after each of them.
module FrameReceiver {
  import opened Sequences
  import opened Octets
  import opened Crc16
  import opened FrameProtocol

  // ----- the loop as a function of what the device delivers -----

  /** A read of at most `max` bytes: the next chunk or the front of it; nothing once the device is silent. */
  function Take(chunks: seq<Bytes>, max: nat): (r: (Bytes, seq<Bytes>))
    ensures |r.0| <= max && r.0 + Concat(r.1) == Concat(chunks)
  {
    if chunks == [] then
      ([], [])
    else if max == 0 && chunks[0] != [] then
      ([], chunks)
    else if |chunks[0]| <= max then
      (chunks[0], chunks[1..])
    else
      SplitConcat(chunks, max);
      (chunks[0][..max], [chunks[0][max..]] + chunks[1..])
  }

  function Concat(chunks: seq<Bytes>): Bytes {
    if chunks == [] then [] else chunks[0] + Concat(chunks[1..])
  }

  lemma {:induction false} SplitConcat(chunks: seq<Bytes>, max: nat)
    requires chunks != [] && |chunks[0]| > max
    ensures chunks[0][..max] + Concat([chunks[0][max..]] + chunks[1..]) == Concat(chunks)
  {
    var rest := [chunks[0][max..]] + chunks[1..];
    assert rest[0] == chunks[0][max..] && rest[1..] == chunks[1..];
    assert chunks[0] == chunks[0][..max] + chunks[0][max..];
  }

  /** The bytes collected, what is still to come, and for how many turns nothing came. */
  datatype Link = Link(rx: Bytes, chunks: seq<Bytes>, silent: nat)

  datatype Outcome = Going(link: Link) | Finished(code: int, rx: Bytes)

  /** Looking for the head, one byte at a time; anything else is dropped. */
  function FindHead(s: Link): Link {
    var t := Take(s.chunks, 1);
    if t.0 != [] && t.0[0] == RECV_HEAD then Link(t.0, t.1, 0) else Link([], t.1, s.silent + 1)
  }

  /**
   * What a chunk of `n` bytes changes. Whether a frame is complete is asked only if it has three or more;
   * `ok` is the test of a complete frame.
   */
  function Examined(rx: Bytes, n: nat, chunks: seq<Bytes>, headInside: bool, ok: Bytes -> bool): Outcome
    requires 0 < n <= |rx|
  {
    if headInside && rx[0] != RECV_HEAD then Finished(RT_FAIL, [])
    else if n >= HEAD_SIZE && Announced(rx) <= |rx| then Finished(if ok(rx) then RT_OK else RT_CRC_ERROR, rx)
    else Going(Link(rx, chunks, 0))
  }

  /** One chunk more. */
  function ReadMore(s: Link, capacity: nat, headInside: bool, ok: Bytes -> bool): Outcome
    requires |s.rx| <= capacity
  {
    var t := Take(s.chunks, capacity - |s.rx|);
    var rx := s.rx + t.0;
    if t.0 == [] then Going(Link(s.rx, t.1, s.silent + 1)) else Examined(rx, |t.0|, t.1, headInside, ok)
  }

  lemma ChunkExamined(s: Link, capacity: nat, headInside: bool, rx: Bytes, ok: Bytes -> bool)
    requires |s.rx| <= capacity
    requires var t := Take(s.chunks, capacity - |s.rx|); t.0 != [] && rx == s.rx + t.0
    ensures var t := Take(s.chunks, capacity - |s.rx|);
      ReadMore(s, capacity, headInside, ok) == Examined(rx, |t.0|, t.1, headInside, ok)
  {
  }

  function Turn(s: Link, capacity: nat, headInside: bool, ok: Bytes -> bool): Outcome
    requires |s.rx| <= capacity && (capacity > 0 || headInside)
  {
    var h := if s.rx == [] && !headInside then FindHead(s) else s;
    var o := if h.rx != [] || headInside then ReadMore(h, capacity, headInside, ok) else Going(h);
    if o.Going? && o.link.silent > TIMEOUT then Finished(RT_TIMEOUT, o.link.rx) else o
  }

  /** CheckReceiveData: the code and the bytes collected. Each turn collects more or waits one turn longer. */
  function Receive(s: Link, capacity: nat, headInside: bool, ok: Bytes -> bool): (int, Bytes)
    requires |s.rx| <= capacity && (capacity > 0 || headInside) && s.silent <= TIMEOUT
    decreases capacity - |s.rx|, TIMEOUT + 1 - s.silent
  {
    match Turn(s, capacity, headInside, ok)
    case Finished(code, rx) => (code, rx)
    case Going(next) => Receive(next, capacity, headInside, ok)
  }

  /** A turn that does not end collects more or waits one turn longer. */
  lemma TurnAdvances(s: Link, capacity: nat, headInside: bool, ok: Bytes -> bool)
    requires |s.rx| <= capacity && (capacity > 0 || headInside)
    ensures var o := Turn(s, capacity, headInside, ok); o.Going? ==>
      && |s.rx| <= |o.link.rx| <= capacity && o.link.silent <= TIMEOUT
      && (|o.link.rx| == |s.rx| ==> o.link.silent > s.silent)
  {
  }

  // ----- what it accepts -----

  /** Accepted bytes are a frame with the right head and CRC that fits the buffer. */
  lemma {:induction false} AcceptedIsFrame(s: Link, capacity: nat, headInside: bool, ok: Bytes -> bool)
    requires |s.rx| <= capacity && (capacity > 0 || headInside) && s.silent <= TIMEOUT
    requires s.rx != [] ==> s.rx[0] == RECV_HEAD
    ensures var r := Receive(s, capacity, headInside, ok);
      r.0 == RT_OK ==> ok(r.1) && r.1 != [] && r.1[0] == RECV_HEAD && |r.1| <= capacity
    decreases capacity - |s.rx|, TIMEOUT + 1 - s.silent
  {
    var o := Turn(s, capacity, headInside, ok);
    if o.Going? {
      AcceptedIsFrame(o.link, capacity, headInside, ok);
    }
  }

  /** If the stream begins with a head byte, accepted bytes are its beginning. */
  lemma {:induction false} AcceptedIsPrefix(s: Link, capacity: nat, headInside: bool, ok: Bytes -> bool)
    requires |s.rx| <= capacity && (capacity > 0 || headInside) && s.silent <= TIMEOUT
    requires Stream(s) != [] ==> Stream(s)[0] == RECV_HEAD
    ensures var r := Receive(s, capacity, headInside, ok); r.0 == RT_OK ==> r.1 <= Stream(s)
    decreases capacity - |s.rx|, TIMEOUT + 1 - s.silent
  {
    TurnKeepsStream(s, capacity, headInside, ok);
    var o := Turn(s, capacity, headInside, ok);
    if o.Going? {
      AcceptedIsPrefix(o.link, capacity, headInside, ok);
    }
  }

  function Stream(s: Link): Bytes {
    s.rx + Concat(s.chunks)
  }

  lemma {:induction false} TurnKeepsStream(s: Link, capacity: nat, headInside: bool, ok: Bytes -> bool)
    requires |s.rx| <= capacity && (capacity > 0 || headInside) && (Stream(s) != [] ==> Stream(s)[0] == RECV_HEAD)
    ensures var o := Turn(s, capacity, headInside, ok);
      if o.Going? then Stream(o.link) == Stream(s) else o.code == RT_OK ==> o.rx <= Stream(s)
  {
    HeadKeepsStream(s, headInside);
    MoreKeepsStream(if s.rx == [] && !headInside then FindHead(s) else s, capacity, headInside, ok);
  }

  lemma {:induction false} HeadKeepsStream(s: Link, headInside: bool)
    requires Stream(s) != [] ==> Stream(s)[0] == RECV_HEAD
    ensures var h := if s.rx == [] && !headInside then FindHead(s) else s; Stream(h) == Stream(s)
  {
    if s.rx == [] && !headInside {
      var t := Take(s.chunks, 1);
      assert s.rx + Concat(s.chunks) == Concat(s.chunks);
      if t.0 != [] { assert t.0[0] == Concat(s.chunks)[0]; }
    }
  }

  lemma {:induction false} MoreKeepsStream(s: Link, capacity: nat, headInside: bool, ok: Bytes -> bool)
    requires |s.rx| <= capacity
    ensures var o := ReadMore(s, capacity, headInside, ok);
      if o.Going? then Stream(o.link) == Stream(s) else o.rx <= Stream(s)
  {
    var t := Take(s.chunks, capacity - |s.rx|);
    TakeKeeps(s.rx, s.chunks, capacity - |s.rx|);
    if t.0 != [] {
      var rx := s.rx + t.0;
      ChunkExamined(s, capacity, headInside, rx, ok);
      ExaminedKeeps(rx, |t.0|, t.1, headInside, ok);
      assert rx + Concat(t.1) == Stream(s);
    }
  }

  lemma ExaminedKeeps(rx: Bytes, n: nat, chunks: seq<Bytes>, headInside: bool, ok: Bytes -> bool)
    requires 0 < n <= |rx|
    ensures var o := Examined(rx, n, chunks, headInside, ok);
      if o.Going? then o.link == Link(rx, chunks, 0) else o.rx == rx || o.rx == []
  {
  }

  lemma {:induction false} TakeKeeps(rx: Bytes, chunks: seq<Bytes>, max: nat)
    ensures var t := Take(chunks, max);
      (rx + t.0) + Concat(t.1) == rx + Concat(chunks) && rx + t.0 <= rx + Concat(chunks)
    ensures var t := Take(chunks, max); t.0 == [] ==> Concat(t.1) == Concat(chunks)
  {
    var t := Take(chunks, max);
    Associate(rx, t.0, Concat(t.1));
    assert [] + Concat(t.1) == Concat(t.1);
  }

  lemma Associate(a: Bytes, b: Bytes, c: Bytes)
    ensures (a + b) + c == a + (b + c) && a + b <= a + (b + c)
  {
  }

  /**
   * A frame altered within two neighbouring bytes of its body never gets RT_OK, in whatever chunks it
   * arrives and whether or not the head is looked for byte by byte.
   */
  lemma AlteredNeverAccepted(f: Bytes, g: Bytes, p: nat, chunks: seq<Bytes>, capacity: nat, headInside: bool)
    requires FrameOk(f) && |f| == Announced(f) && f[0] == RECV_HEAD && BodyChangedAt(f, g, p)
    requires Concat(chunks) == g && (capacity > 0 || headInside)
    ensures Receive(Link([], chunks, 0), capacity, headInside, FrameOk).0 != RT_OK
  {
    var s := Link([], chunks, 0);
    assert Stream(s) == g && g[0] == f[0] && g[1] == f[1] && g[2] == f[2];
    var r := Receive(s, capacity, headInside, FrameOk);
    AcceptedIsFrame(s, capacity, headInside, FrameOk);
    AcceptedIsPrefix(s, capacity, headInside, FrameOk);
    if r.0 == RT_OK {
      WholeFrame(r.1, g);
      AlteredFrame(f, g, p);
    }
  }

  /** A good frame at the start of a stream of just the announced length is all of it. */
  lemma WholeFrame(r: Bytes, g: Bytes)
    requires FrameOk(r) && r <= g && |g| == Announced(g)
    ensures r == g
  {
    assert r[1] == g[1] && r[2] == g[2];
  }

  // ----- every way a good frame can arrive -----

  /** A device that says nothing more lets the loop time out. */
  lemma {:induction false} SilenceTimesOut(rx: Bytes, chunks: seq<Bytes>, silent: nat, capacity: nat,
                                           headInside: bool, ok: Bytes -> bool)
    requires 0 < |rx| <= capacity && silent <= TIMEOUT && Concat(chunks) == []
    ensures Receive(Link(rx, chunks, silent), capacity, headInside, ok) == (RT_TIMEOUT, rx)
    decreases TIMEOUT + 1 - silent
  {
    var t := Take(chunks, capacity - |rx|);
    assert t.0 == [] && Concat(t.1) == [] by { EmptyConcat(t.0, Concat(t.1)); }
    if silent < TIMEOUT {
      SilenceTimesOut(rx, t.1, silent + 1, capacity, headInside, ok);
    }
  }

  lemma EmptyConcat(a: Bytes, b: Bytes)
    requires a + b == []
    ensures a == [] && b == []
  {
    assert |a + b| == |a| + |b|;
  }

  /** No more than TIMEOUT turns in a row, after `silent` earlier ones, bring nothing while bytes are to come. */
  predicate Patient(chunks: seq<Bytes>, silent: nat)
    decreases |chunks|
  {
    Concat(chunks) == []
    || (if chunks[0] == [] then silent < TIMEOUT && Patient(chunks[1..], silent + 1) else Patient(chunks[1..], 0))
  }

  /** The last chunk that brings anything. */
  function LastPart(chunks: seq<Bytes>): Bytes
    requires Concat(chunks) != []
    decreases |chunks|
  {
    if Concat(chunks[1..]) == [] then chunks[0] else LastPart(chunks[1..])
  }

  function Arrival(chunks: seq<Bytes>, silent: nat): int
    requires Concat(chunks) != []
  {
    if Patient(chunks, silent) && |LastPart(chunks)| >= HEAD_SIZE then RT_OK else RT_TIMEOUT
  }

  lemma LastPartOnly(chunks: seq<Bytes>, silent: nat)
    requires chunks != [] && chunks[0] != [] && Concat(chunks[1..]) == []
    ensures Concat(chunks) != [] && Patient(chunks, silent) && LastPart(chunks) == chunks[0]
  {
  }

  /** What is received of the rest of the good frame `f`. */
  ghost predicate Arrives(f: Bytes, s: Link, capacity: nat, headInside: bool, ok: Bytes -> bool)
    requires |s.rx| <= capacity && (capacity > 0 || headInside) && s.silent <= TIMEOUT && Concat(s.chunks) != []
  {
    var r := Receive(s, capacity, headInside, ok);
    r.0 == Arrival(s.chunks, s.silent) && (Patient(s.chunks, s.silent) ==> r.1 == f)
  }

  ghost predicate GoodFrame(f: Bytes, capacity: nat, ok: Bytes -> bool) {
    ok(f) && |f| > HEAD_SIZE && |f| == Announced(f) <= capacity && f[0] == RECV_HEAD
  }

  /** A chunk that leaves the frame incomplete only adds its bytes. */
  lemma PartOfFrame(f: Bytes, rx: Bytes, n: nat, chunks: seq<Bytes>, capacity: nat, headInside: bool, ok: Bytes -> bool)
    requires GoodFrame(f, capacity, ok) && rx < f && 0 < n <= |rx|
    ensures Examined(rx, n, chunks, headInside, ok) == Going(Link(rx, chunks, 0))
  {
    assert rx[0] == f[0];
    if n >= HEAD_SIZE { assert rx[1] == f[1] && rx[2] == f[2]; }
  }

  /** A turn that brings nothing. */
  lemma SilentTurn(rx: Bytes, chunks: seq<Bytes>, silent: nat, capacity: nat, headInside: bool, ok: Bytes -> bool)
    requires |rx| <= capacity && (capacity > 0 || headInside) && silent <= TIMEOUT && (rx != [] || headInside)
         && chunks != [] && chunks[0] == []
    ensures Receive(Link(rx, chunks, silent), capacity, headInside, ok)
         == if silent < TIMEOUT then Receive(Link(rx, chunks[1..], silent + 1), capacity, headInside, ok)
             else (RT_TIMEOUT, rx)
  {
  }

  /** A turn that brings a chunk for which there is room. */
  lemma ChunkTurn(rx: Bytes, chunks: seq<Bytes>, silent: nat, capacity: nat, headInside: bool, ok: Bytes -> bool)
    requires (capacity > 0 || headInside) && silent <= TIMEOUT && (rx != [] || headInside) && chunks != []
         && chunks[0] != []
    requires |rx + chunks[0]| <= capacity
    ensures Receive(Link(rx, chunks, silent), capacity, headInside, ok)
         == Concluded(Examined(rx + chunks[0], |chunks[0]|, chunks[1..], headInside, ok), capacity, headInside, ok)
  {
    ChunkExamined(Link(rx, chunks, silent), capacity, headInside, rx + chunks[0], ok);
  }

  /** How the loop goes on after a turn. */
  function Concluded(o: Outcome, capacity: nat, headInside: bool, ok: Bytes -> bool): (int, Bytes)
    requires o.Going? ==> |o.link.rx| <= capacity && (capacity > 0 || headInside) && o.link.silent <= TIMEOUT
  {
    if o.Finished? then (o.code, o.rx) else Receive(o.link, capacity, headInside, ok)
  }

  /** The last chunk is looked at if it is long enough; otherwise the loop waits in vain. */
  lemma LastArrives(f: Bytes, n: nat, rest: seq<Bytes>, capacity: nat, headInside: bool, ok: Bytes -> bool)
    requires GoodFrame(f, capacity, ok) && 0 < n <= |f| && Concat(rest) == []
    ensures Concluded(Examined(f, n, rest, headInside, ok), capacity, headInside, ok)
         == (if n >= HEAD_SIZE then RT_OK else RT_TIMEOUT, f)
  {
    if n < HEAD_SIZE {
      SilenceTimesOut(f, rest, 0, capacity, headInside, ok);
    }
  }

  /** The chunk that ends the frame. */
  lemma {:induction false} LastChunkArrives(f: Bytes, rx: Bytes, chunks: seq<Bytes>, silent: nat, capacity: nat,
                                            headInside: bool, ok: Bytes -> bool)
    requires GoodFrame(f, capacity, ok) && chunks != [] && chunks[0] != [] && Concat(chunks[1..]) == []
    requires f == rx + chunks[0] && silent <= TIMEOUT && (rx != [] || headInside)
    ensures Concat(chunks) != [] && Arrives(f, Link(rx, chunks, silent), capacity, headInside, ok)
  {
    ChunkTurn(rx, chunks, silent, capacity, headInside, ok);
    LastArrives(f, |chunks[0]|, chunks[1..], capacity, headInside, ok);
    LastPartOnly(chunks, silent);
  }

  /** A turn of silence before the rest of the frame. */
  lemma {:induction false} ArrivesAfterSilence(f: Bytes, rx: Bytes, chunks: seq<Bytes>, silent: nat, capacity: nat,
                                               headInside: bool, ok: Bytes -> bool)
    requires |rx| <= capacity && capacity > 0 && silent <= TIMEOUT && (rx != [] || headInside)
    requires chunks != [] && chunks[0] == [] && Concat(chunks[1..]) != []
    requires silent < TIMEOUT ==> Arrives(f, Link(rx, chunks[1..], silent + 1), capacity, headInside, ok)
    ensures Concat(chunks) != [] && Arrives(f, Link(rx, chunks, silent), capacity, headInside, ok)
  {
    SilentTurn(rx, chunks, silent, capacity, headInside, ok);
    ArrivalAfterSilence(chunks, silent);
  }

  lemma {:induction false} ArrivalAfterSilence(chunks: seq<Bytes>, silent: nat)
    requires chunks != [] && chunks[0] == [] && Concat(chunks[1..]) != []
    ensures Concat(chunks) != [] && LastPart(chunks) == LastPart(chunks[1..])
    ensures Patient(chunks, silent) <==> silent < TIMEOUT && Patient(chunks[1..], silent + 1)
  {
    assert [] + Concat(chunks[1..]) == Concat(chunks[1..]);
  }

  /** A chunk before the rest of the frame. */
  lemma {:induction false} ArrivesAfterPart(f: Bytes, rx: Bytes, chunks: seq<Bytes>, silent: nat, capacity: nat,
                                            headInside: bool, ok: Bytes -> bool)
    requires GoodFrame(f, capacity, ok) && silent <= TIMEOUT && (rx != [] || headInside)
    requires chunks != [] && chunks[0] != [] && Concat(chunks[1..]) != [] && rx + chunks[0] < f
    requires Arrives(f, Link(rx + chunks[0], chunks[1..], 0), capacity, headInside, ok)
    ensures Concat(chunks) != [] && Arrives(f, Link(rx, chunks, silent), capacity, headInside, ok)
  {
    ChunkTurn(rx, chunks, silent, capacity, headInside, ok);
    PartOfFrame(f, rx + chunks[0], |chunks[0]|, chunks[1..], capacity, headInside, ok);
  }

  lemma {:induction false} RestArrives(f: Bytes, rx: Bytes, chunks: seq<Bytes>, silent: nat, capacity: nat,
                                       headInside: bool, ok: Bytes -> bool)
    requires GoodFrame(f, capacity, ok) && f == rx + Concat(chunks) && Concat(chunks) != []
    requires silent <= TIMEOUT && (rx != [] || headInside)
    ensures Arrives(f, Link(rx, chunks, silent), capacity, headInside, ok)
    decreases |chunks|
  {
    var c, rest := chunks[0], chunks[1..];
    Associate(rx, c, Concat(rest));
    if c == [] {
      assert [] + Concat(rest) == Concat(rest);
      if silent < TIMEOUT {
        RestArrives(f, rx, rest, silent + 1, capacity, headInside, ok);
      }
      ArrivesAfterSilence(f, rx, chunks, silent, capacity, headInside, ok);
    } else if Concat(rest) == [] {
      AppendNothing(rx + c);
      LastChunkArrives(f, rx, chunks, silent, capacity, headInside, ok);
    } else {
      RestArrives(f, rx + c, rest, 0, capacity, headInside, ok);
      ArrivesAfterPart(f, rx, chunks, silent, capacity, headInside, ok);
    }
  }

  /** Before the head byte: silence, or the chunk it begins. */
  lemma {:induction false} HeadArrives(f: Bytes, chunks: seq<Bytes>, silent: nat, capacity: nat, ok: Bytes -> bool)
    requires GoodFrame(f, capacity, ok) && f == Concat(chunks) && silent <= TIMEOUT
    ensures Arrives(f, Link([], chunks, silent), capacity, false, ok)
    decreases |chunks|
  {
    var c, rest := chunks[0], chunks[1..];
    if c == [] {
      assert Take(chunks, 1) == ([], rest) && Concat(rest) == f;
      if silent < TIMEOUT {
        HeadArrives(f, rest, silent + 1, capacity, ok);
      }
    } else {
      var behind := if |c| == 1 then rest else [c[1..]] + rest;
      HeadTaken(f, chunks, behind, silent, capacity, ok);
      RestArrives(f, [RECV_HEAD], behind, 0, capacity, false, ok);
      SameArrival(f, chunks, behind, silent);
    }
  }

  /** Finding the head and reading on is one turn, as if the head had been there. */
  lemma HeadTaken(f: Bytes, chunks: seq<Bytes>, behind: seq<Bytes>, silent: nat, capacity: nat, ok: Bytes -> bool)
    requires GoodFrame(f, capacity, ok) && f == Concat(chunks) && chunks[0] != [] && silent <= TIMEOUT
    requires behind == if |chunks[0]| == 1 then chunks[1..] else [chunks[0][1..]] + chunks[1..]
    ensures f == [RECV_HEAD] + Concat(behind) && Concat(behind) != []
    ensures Receive(Link([], chunks, silent), capacity, false, ok)
         == Receive(Link([RECV_HEAD], behind, 0), capacity, false, ok)
  {
    assert chunks[0][0] == f[0];
    assert FindHead(Link([], chunks, silent)) == Link([RECV_HEAD], behind, 0) by {
      assert chunks[0][..1] == [RECV_HEAD];
    }
    TakeKeeps([], chunks, 1);
    assert f == [RECV_HEAD] + Concat(behind);
  }

  lemma SameArrival(f: Bytes, chunks: seq<Bytes>, behind: seq<Bytes>, silent: nat)
    requires f == Concat(chunks) && |f| >= HEAD_SIZE + CRC_SIZE && chunks[0] != [] && Concat(behind) != []
    requires behind == if |chunks[0]| == 1 then chunks[1..] else [chunks[0][1..]] + chunks[1..]
    ensures Arrival(chunks, silent) == Arrival(behind, 0) && (Patient(chunks, silent) <==> Patient(behind, 0))
  {
    if |chunks[0]| > 1 {
      assert behind[0] == chunks[0][1..] && behind[1..] == chunks[1..];
      if Concat(chunks[1..]) == [] { assert chunks[0] + [] == chunks[0]; }
    }
  }

  /**
   * However a good frame that fits is cut into chunks, silent turns included, and whether or not the head is
   * looked for byte by byte: it is accepted if and only if the silence never lasts longer than TIMEOUT turns
   * and the last chunk has three bytes or more. Otherwise the receiver times out, with the whole frame in
   * its buffer if the silence was not the reason.
   */
  lemma GoodFrameArrives(f: Bytes, chunks: seq<Bytes>, capacity: nat, headInside: bool)
    requires FrameOk(f) && |f| == Announced(f) <= capacity && f[0] == RECV_HEAD && Concat(chunks) == f
    ensures var (code, rx) := Receive(Link([], chunks, 0), capacity, headInside, FrameOk);
      && code == (if Patient(chunks, 0) && |LastPart(chunks)| >= HEAD_SIZE then RT_OK else RT_TIMEOUT)
      && (Patient(chunks, 0) ==> rx == f)
  {
    if headInside {
      assert [] + Concat(chunks) == f;
      RestArrives(f, [], chunks, 0, capacity, true, FrameOk);
    } else {
      HeadArrives(f, chunks, 0, capacity, FrameOk);
    }
  }

  /** Without empty chunks only the size of the last one counts. */
  lemma {:induction false} BusyIsPatient(chunks: seq<Bytes>, silent: nat)
    requires chunks != [] && forall i :: 0 <= i < |chunks| ==> chunks[i] != []
    ensures Concat(chunks) != [] && Patient(chunks, silent) && LastPart(chunks) == chunks[|chunks| - 1]
    decreases |chunks|
  {
    if |chunks| > 1 {
      assert forall i :: 0 <= i < |chunks[1..]| ==> chunks[1..][i] == chunks[i + 1];
      BusyIsPatient(chunks[1..], 0);
    }
  }

  // ----- a good frame inside a longer stream -----

  /** The first `n` bytes to come replaced by turns that bring nothing. */
  function Quiet(chunks: seq<Bytes>, n: nat): seq<Bytes>
    decreases n, |chunks|
  {
    if n == 0 || chunks == [] then chunks
    else [[]] + Quiet(Take(chunks, 1).1, if chunks[0] == [] then n else n - 1)
  }

  /** A turn in search of the head that brings nothing or another byte. */
  lemma {:induction false} HeadMissed(chunks: seq<Bytes>, silent: nat, capacity: nat, ok: Bytes -> bool)
    requires silent <= TIMEOUT && capacity > 0
    requires var t := Take(chunks, 1); t.0 == [] || t.0[0] != RECV_HEAD
    ensures Receive(Link([], chunks, silent), capacity, false, ok)
         == if silent < TIMEOUT then Receive(Link([], Take(chunks, 1).1, silent + 1), capacity, false, ok)
            else (RT_TIMEOUT, [])
  {
  }

  /** Finding the head and reading on is one turn, as if the head had been there. */
  lemma {:induction false} HeadFound(chunks: seq<Bytes>, silent: nat, capacity: nat, ok: Bytes -> bool)
    requires silent <= TIMEOUT && capacity > 0 && Take(chunks, 1).0 == [RECV_HEAD]
    ensures Receive(Link([], chunks, silent), capacity, false, ok)
         == Receive(Link([RECV_HEAD], Take(chunks, 1).1, 0), capacity, false, ok)
  {
    assert FindHead(Link([], chunks, silent)) == Link([RECV_HEAD], Take(chunks, 1).1, 0);
  }

  /** While the head byte is looked for, another byte is as good as none. */
  lemma {:induction false} NoiseIsSilence(noise: Bytes, rest: Bytes, chunks: seq<Bytes>, silent: nat, capacity: nat,
                                          ok: Bytes -> bool)
    requires Concat(chunks) == noise + rest && RECV_HEAD !in noise && silent <= TIMEOUT && capacity > 0
    ensures Concat(Quiet(chunks, |noise|)) == rest
    ensures Receive(Link([], chunks, silent), capacity, false, ok)
         == Receive(Link([], Quiet(chunks, |noise|), silent), capacity, false, ok)
    decreases |noise|, |chunks|
  {
    if noise == [] {
      assert noise + rest == rest;
    } else {
      var t := Take(chunks, 1);
      var tail := if chunks[0] == [] then noise else noise[1..];
      OneTaken(noise, rest, chunks);
      HeadMissed(chunks, silent, capacity, ok);
      var quiet := Quiet(chunks, |noise|);
      assert quiet[0] == [] && quiet[1..] == Quiet(t.1, |tail|);
      assert [] + Concat(quiet[1..]) == Concat(quiet[1..]);
      HeadMissed(quiet, silent, capacity, ok);
      NoiseIsSilence(tail, rest, t.1, if silent < TIMEOUT then silent + 1 else silent, capacity, ok);
    }
  }

  lemma OneTaken(noise: Bytes, rest: Bytes, chunks: seq<Bytes>)
    requires Concat(chunks) == noise + rest && noise != []
    ensures var t := Take(chunks, 1);
      if chunks[0] == [] then t == ([], chunks[1..]) && Concat(t.1) == noise + rest
      else t.0 == [noise[0]] && Concat(t.1) == noise[1..] + rest
  {
    var t := Take(chunks, 1);
    if chunks[0] != [] {
      assert |t.0| == 1 && (t.0 + Concat(t.1))[1..] == Concat(t.1);
      assert (noise + rest)[1..] == noise[1..] + rest;
    } else {
      assert [] + Concat(t.1) == Concat(t.1);
    }
  }

  /**
   * With `used` bytes collected: a chunk of three bytes or more ends at byte `need` or behind it, before the
   * buffer is full or the silence too long.
   */
  predicate Noticed(chunks: seq<Bytes>, used: nat, silent: nat, need: nat, capacity: nat)
    decreases capacity - used, |chunks|
  {
    used < capacity && chunks != [] &&
    if chunks[0] == [] then silent < TIMEOUT && Noticed(chunks[1..], used, silent + 1, need, capacity)
    else var t := Take(chunks, capacity - used);
         (|t.0| >= HEAD_SIZE && used + |t.0| >= need) || Noticed(t.1, used + |t.0|, 0, need, capacity)
  }

  /** The same when the first byte to come is read alone. */
  predicate NoticedByHead(chunks: seq<Bytes>, silent: nat, need: nat, capacity: nat)
    decreases |chunks|
  {
    chunks != [] &&
    if chunks[0] == [] then silent < TIMEOUT && NoticedByHead(chunks[1..], silent + 1, need, capacity)
    else Noticed(Take(chunks, 1).1, 1, 0, need, capacity)
  }

  /** A frame that fits and passes the test or not, whatever stands behind it. */
  ghost predicate Leading(f: Bytes, capacity: nat, ok: Bytes -> bool) {
    && |f| > HEAD_SIZE && |f| == Announced(f) <= capacity && f[0] == RECV_HEAD
    && forall rx {:trigger ok(rx)} :: f <= rx ==> ok(rx) == ok(f)
  }

  /** The code for a frame that was looked at. */
  function Verdict(good: bool): int {
    if good then RT_OK else RT_CRC_ERROR
  }

  /** The bytes collected and those to come are a stream that begins with `f`. */
  ghost predicate Within(f: Bytes, behind: Bytes, rx: Bytes, chunks: seq<Bytes>) {
    rx + Concat(chunks) == f + behind
  }

  lemma WithinKept(f: Bytes, behind: Bytes, rx: Bytes, chunks: seq<Bytes>, max: nat)
    requires Within(f, behind, rx, chunks)
    ensures var t := Take(chunks, max);
      Within(f, behind, rx + t.0, t.1) && (t.0 == [] ==> Within(f, behind, rx, t.1))
  {
    TakeKeeps(rx, chunks, max);
  }

  /** The frame is complete and the last chunk, of `n` bytes, long enough to be looked at. */
  ghost predicate Completes(f: Bytes, n: nat, all: Bytes) {
    n >= HEAD_SIZE && |all| >= |f|
  }

  /** What a chunk of `n` bytes changes when the bytes collected belong to such a stream. */
  lemma ExaminedInStream(f: Bytes, behind: Bytes, rx: Bytes, n: nat, chunks: seq<Bytes>, capacity: nat,
                         headInside: bool, ok: Bytes -> bool)
    requires Leading(f, capacity, ok) && Within(f, behind, rx, chunks) && 0 < n <= |rx|
    ensures Examined(rx, n, chunks, headInside, ok)
         == if Completes(f, n, rx) then Finished(Verdict(ok(f)), rx) else Going(Link(rx, chunks, 0))
    ensures Completes(f, n, rx) ==> f <= rx
  {
    assert forall i :: 0 <= i < |rx| ==> rx[i] == (rx + Concat(chunks))[i];
    assert forall i :: 0 <= i < |f| ==> f[i] == (f + behind)[i];
    assert rx[0] == f[0];
    if n >= HEAD_SIZE { assert rx[1] == f[1] && rx[2] == f[2]; }
  }

  /** What is received of a stream whose bytes so far begin or hold the good frame `f`. */
  ghost predicate ArrivesAs(r: (int, Bytes), noticed: bool, f: Bytes, good: bool) {
    r.0 == (if noticed then Verdict(good) else RT_TIMEOUT) && (noticed ==> f <= r.1)
  }

  /** A turn once the head is there, or is not looked for. */
  lemma {:induction false} TurnBehindHead(rx: Bytes, chunks: seq<Bytes>, silent: nat, capacity: nat, headInside: bool,
                                          ok: Bytes -> bool)
    requires |rx| <= capacity && (rx != [] || headInside) && silent <= TIMEOUT
    ensures var t := Take(chunks, capacity - |rx|);
      Receive(Link(rx, chunks, silent), capacity, headInside, ok)
      == if t.0 != [] then Concluded(Examined(rx + t.0, |t.0|, t.1, headInside, ok), capacity, headInside, ok)
         else if silent < TIMEOUT then Receive(Link(rx, t.1, silent + 1), capacity, headInside, ok)
         else (RT_TIMEOUT, rx)
  {
  }

  lemma {:induction false} NoticedLater(chunks: seq<Bytes>, used: nat, silent: nat, need: nat, capacity: nat)
    requires used <= capacity && silent <= TIMEOUT
    ensures var t := Take(chunks, capacity - used);
      Noticed(chunks, used, silent, need, capacity)
      <==> if t.0 == [] then silent < TIMEOUT && Noticed(t.1, used, silent + 1, need, capacity)
           else (|t.0| >= HEAD_SIZE && used + |t.0| >= need) || Noticed(t.1, used + |t.0|, 0, need, capacity)
  {
  }

  /** What is received from here on. */
  ghost predicate FoundFrom(f: Bytes, rx: Bytes, chunks: seq<Bytes>, silent: nat, capacity: nat, headInside: bool,
                            ok: Bytes -> bool)
    requires |rx| <= capacity && (rx != [] || headInside) && silent <= TIMEOUT
  {
    ArrivesAs(Receive(Link(rx, chunks, silent), capacity, headInside, ok),
              Noticed(chunks, |rx|, silent, |f|, capacity), f, ok(f))
  }

  lemma {:induction false} FoundAfterSilence(f: Bytes, rx: Bytes, chunks: seq<Bytes>, silent: nat, capacity: nat,
                                             headInside: bool, ok: Bytes -> bool)
    requires |rx| <= capacity && (rx != [] || headInside) && silent <= TIMEOUT
    requires var t := Take(chunks, capacity - |rx|);
      t.0 == [] && (silent < TIMEOUT ==> FoundFrom(f, rx, t.1, silent + 1, capacity, headInside, ok))
    ensures FoundFrom(f, rx, chunks, silent, capacity, headInside, ok)
  {
    TurnBehindHead(rx, chunks, silent, capacity, headInside, ok);
    NoticedLater(chunks, |rx|, silent, |f|, capacity);
  }

  lemma {:induction false} FoundAfterChunk(f: Bytes, rx: Bytes, chunks: seq<Bytes>, silent: nat, capacity: nat,
                                           headInside: bool, ok: Bytes -> bool, n: nat, all: Bytes, left: seq<Bytes>)
    requires |rx| <= capacity && (rx != [] || headInside) && silent <= TIMEOUT
    requires var t := Take(chunks, capacity - |rx|); t.0 != [] && all == rx + t.0 && n == |t.0| && left == t.1
    requires Examined(all, n, left, headInside, ok)
          == if Completes(f, n, all) then Finished(Verdict(ok(f)), all) else Going(Link(all, left, 0))
    requires if Completes(f, n, all) then f <= all else FoundFrom(f, all, left, 0, capacity, headInside, ok)
    ensures FoundFrom(f, rx, chunks, silent, capacity, headInside, ok)
  {
    TurnBehindHead(rx, chunks, silent, capacity, headInside, ok);
    NoticedLater(chunks, |rx|, silent, |f|, capacity);
  }

  lemma {:induction false} StreamArrives(f: Bytes, behind: Bytes, rx: Bytes, chunks: seq<Bytes>, silent: nat,
                                         capacity: nat, headInside: bool, ok: Bytes -> bool)
    requires Leading(f, capacity, ok) && Within(f, behind, rx, chunks) && |rx| <= capacity
    requires silent <= TIMEOUT && (rx != [] || headInside)
    ensures FoundFrom(f, rx, chunks, silent, capacity, headInside, ok)
    decreases capacity - |rx|, TIMEOUT + 1 - silent
  {
    var (part, left) := Take(chunks, capacity - |rx|);
    var n, all := |part|, rx + part;
    WithinKept(f, behind, rx, chunks, capacity - |rx|);
    if part == [] {
      if silent < TIMEOUT {
        StreamArrives(f, behind, rx, left, silent + 1, capacity, headInside, ok);
      }
      FoundAfterSilence(f, rx, chunks, silent, capacity, headInside, ok);
    } else {
      ExaminedInStream(f, behind, all, n, left, capacity, headInside, ok);
      if !Completes(f, n, all) {
        StreamArrives(f, behind, all, left, 0, capacity, headInside, ok);
      }
      FoundAfterChunk(f, rx, chunks, silent, capacity, headInside, ok, n, all, left);
    }
  }

  lemma {:induction false} StreamArrivesByHead(f: Bytes, behind: Bytes, chunks: seq<Bytes>, silent: nat, capacity: nat,
                                               ok: Bytes -> bool)
    requires Leading(f, capacity, ok) && Concat(chunks) == f + behind && silent <= TIMEOUT
    ensures ArrivesAs(Receive(Link([], chunks, silent), capacity, false, ok),
                      NoticedByHead(chunks, silent, |f|, capacity), f, ok(f))
    decreases |chunks|
  {
    OneTaken(f, behind, chunks);
    var t := Take(chunks, 1);
    if chunks[0] == [] {
      HeadMissed(chunks, silent, capacity, ok);
      if silent < TIMEOUT {
        StreamArrivesByHead(f, behind, t.1, silent + 1, capacity, ok);
      }
    } else {
      HeadFound(chunks, silent, capacity, ok);
      assert [f[0]] + Concat(t.1) == f + behind;
      StreamArrives(f, behind, [RECV_HEAD], t.1, 0, capacity, false, ok);
    }
  }

  /** The CRC is looked for where the frame says that it ends. */
  lemma FrameOkAhead(f: Bytes, rx: Bytes)
    requires |f| >= HEAD_SIZE && |f| == Announced(f) && f <= rx
    ensures FrameOk(rx) == FrameOk(f)
  {
    assert rx[1] == f[1] && rx[2] == f[2];
    assert rx[1..|f| - 2] == f[1..|f| - 2];
  }

  /**
   * The same for any frame of the announced length, good or not, with anything behind it and, where the head
   * is looked for byte by byte, with noise without a head byte before it: the CRC decides if and only if a
   * chunk of three bytes or more ends at the last byte of the frame or later. Each byte of noise counts as a
   * silent turn.
   */
  lemma FrameInStream(noise: Bytes, f: Bytes, behind: Bytes, chunks: seq<Bytes>, capacity: nat, headInside: bool)
    requires |f| >= HEAD_SIZE && |f| == Announced(f) <= capacity && f[0] == RECV_HEAD
    requires Concat(chunks) == noise + (f + behind) && RECV_HEAD !in noise && (headInside ==> noise == [])
    ensures var (code, rx) := Receive(Link([], chunks, 0), capacity, headInside, FrameOk);
      var quiet := Quiet(chunks, |noise|);
      var noticed := if headInside then Noticed(quiet, 0, 0, |f|, capacity) else NoticedByHead(quiet, 0, |f|, capacity);
      && code == (if !noticed then RT_TIMEOUT else if FrameOk(f) then RT_OK else RT_CRC_ERROR)
      && (noticed ==> f <= rx)
  {
    forall rx: Bytes {:trigger FrameOk(rx)} | f <= rx ensures FrameOk(rx) == FrameOk(f) {
      FrameOkAhead(f, rx);
    }
    if headInside {
      assert noise + (f + behind) == f + behind && [] + Concat(chunks) == Concat(chunks);
      StreamArrives(f, behind, [], chunks, 0, capacity, true, FrameOk);
    } else {
      NoiseIsSilence(noise, f + behind, chunks, 0, capacity, FrameOk);
      StreamArrivesByHead(f, behind, Quiet(chunks, |noise|), 0, capacity, FrameOk);
    }
  }

  /** Some chunk comes before the silence gets too long. */
  predicate Comes(chunks: seq<Bytes>, silent: nat) {
    chunks != [] && (chunks[0] != [] || (silent < TIMEOUT && Comes(chunks[1..], silent + 1)))
  }

  /** Where the head is not looked for, a stream that begins with another byte fails at once. */
  lemma {:induction false} NoHeadFails(chunks: seq<Bytes>, silent: nat, capacity: nat, ok: Bytes -> bool)
    requires Concat(chunks) != [] && Concat(chunks)[0] != RECV_HEAD && capacity > 0 && silent <= TIMEOUT
    ensures Receive(Link([], chunks, silent), capacity, true, ok)
         == (if Comes(chunks, silent) then RT_FAIL else RT_TIMEOUT, [])
    decreases |chunks|
  {
    var t := Take(chunks, capacity);
    TurnBehindHead([], chunks, silent, capacity, true, ok);
    if chunks[0] == [] {
      assert [] + Concat(chunks[1..]) == Concat(chunks[1..]);
      if silent < TIMEOUT { NoHeadFails(chunks[1..], silent + 1, capacity, ok); }
    } else {
      assert t.0[0] == (t.0 + Concat(t.1))[0];
      assert [] + t.0 == t.0;
    }
  }

  // ----- the receiver -----

  lemma InnerSlice(a: array<Byte>, n: nat, i: nat, j: nat)
    requires i <= j <= n <= a.Length
    ensures a[..n][i..j] == a[i..j]
  {
  }

  /** The size the loop asks for: a difference of two integers, passed on as a uint16_t. */
  function Room(maxBufSize: nat, used: nat): nat {
    (maxBufSize - used) % 0x10000
  }

  /** It fits behind the bytes collected as long as these fit the buffer, whose size came through a uint8_t. */
  lemma RoomInside(maxBufSize: nat, used: nat)
    requires maxBufSize < 0x10000 && used < 0x10000
    ensures used + Room(maxBufSize, used) <= maxBufSize <==> used <= maxBufSize
    ensures used <= maxBufSize ==> Room(maxBufSize, used) == maxBufSize - used
  {
  }

  /** A size that is a multiple of 256 becomes 0; with the head byte found, 65535 bytes are asked for behind it. */
  lemma MultipleOf256Overruns(size: nat)
    ensures 1 + Room(size % 256, 1) <= size % 256 <==> size % 256 > 0
    ensures size % 256 == 0 ==> Room(size % 256, 1) == 65535
  {
    RoomInside(size % 256, 1);
  }

  /** `ok` answers what the test of a frame answers. */
  ghost predicate Decides(ok: Bytes -> bool) {
    forall rx {:trigger FrameOk(rx)} :: ok(rx) == FrameOk(rx)
  }

  class Receiver {
    const rx: array<Byte>
    const maxBufSize: nat
    var rxBufSize: nat
    var rxTimout: nat
    var rxDataSize: nat
    /** What the device will deliver. */
    var chunks: seq<Bytes>

    ghost predicate Valid()
      reads this
    {
      maxBufSize <= rx.Length && maxBufSize < 256 && rxBufSize <= maxBufSize
    }

    ghost function State(): Link
      requires Valid()
      reads this, rx
    {
      Link(rx[..rxBufSize], chunks, rxTimout)
    }

    /** The buffer size goes through a uint8_t: of a buffer of 1200 bytes only 176 are used. */
    constructor (buffer: array<Byte>, size: nat, chunks: seq<Bytes>)
      requires size <= buffer.Length
      ensures Valid() && rx == buffer && maxBufSize == size % 256 && this.chunks == chunks
    {
      rx, maxBufSize, this.chunks := buffer, size % 256, chunks;
      rxBufSize, rxTimout, rxDataSize := 0, 0, 0;
    }

    /** The device puts at most `max` bytes into the buffer. */
    method DeviceRead(at: nat, max: nat) returns (n: nat)
      requires at + max <= rx.Length
      modifies rx, this`chunks
      ensures var t := Take(old(chunks), max); n == |t.0| && chunks == t.1
      ensures at + n <= rx.Length && rx[..at + n] == old(rx[..at]) + Take(old(chunks), max).0
    {
      var (got, left) := Take(chunks, max);
      n := |got|;
      forall i | 0 <= i < n {
        rx[at + i] := got[i];
      }
      chunks := left;
    }

    /** Looking for the head byte. */
    method ReadHead()
      requires Valid() && maxBufSize > 0 && rxBufSize == 0
      modifies this, rx
      ensures Valid() && State() == FindHead(old(State()))
    {
      var nRead := DeviceRead(0, 1);
      if nRead > 0 && rx[0] == RECV_HEAD {
        rxBufSize := rxBufSize + 1;
        rxTimout := 0;
      } else {
        rxBufSize := 0;
        rxTimout := rxTimout + 1;
      }
    }

    /** The announced length and, once all is there, the CRC of everything between the head and the CRC. */
    method CheckFrame() returns (complete: bool, good: bool)
      requires Valid() && rxBufSize >= HEAD_SIZE
      modifies this`rxDataSize
      ensures complete == (Announced(rx[..rxBufSize]) <= rxBufSize)
      ensures complete ==> good == FrameOk(rx[..rxBufSize])
    {
      rxDataSize := Joined(rx[1], rx[2]);
      var nLen := rxDataSize + HEAD_SIZE + CRC_SIZE;
      complete, good := rxBufSize >= nLen, false;
      if complete {
        var crcRecv := Joined(rx[nLen - 2], rx[nLen - 1]);
        var crcCalc := Compute(0xFFFF, rx, 1, nLen - CRC_SIZE - 1);
        InnerSlice(rx, rxBufSize, 1, nLen - 2);
        good := crcRecv == crcCalc as int;
      }
    }

    /** The outcome of a turn is what the fields now say. */
    ghost predicate Became(o: Outcome, finished: bool, code: int)
      requires Valid()
      reads this, rx
    {
      o == if finished then Finished(code, rx[..rxBufSize]) else Going(State())
    }

    /** One chunk more. */
    method ReadChunk(headInside: bool, ghost ok: Bytes -> bool) returns (finished: bool, code: int)
      requires Valid()
      modifies this, rx
      ensures Valid() && (Decides(ok) ==> Became(ReadMore(old(State()), maxBufSize, headInside, ok), finished, code))
    {
      finished, code := false, RT_OK;
      ghost var s := State();
      RoomInside(maxBufSize, rxBufSize);
      var nRead := DeviceRead(rxBufSize, Room(maxBufSize, rxBufSize));
      if nRead > 0 {
        assert rx[..rxBufSize + nRead] == s.rx + Take(s.chunks, maxBufSize - rxBufSize).0;
        ChunkExamined(s, maxBufSize, headInside, rx[..rxBufSize + nRead], ok);
        finished, code := Examine(nRead, headInside, ReadMore(s, maxBufSize, headInside, ok), ok);
      } else {
        assert rx[..rxBufSize] == s.rx;
        rxTimout := rxTimout + 1;
      }
    }

    /** The head and, if the chunk is long enough, the look for a complete frame. */
    method Examine(nRead: nat, headInside: bool, ghost o: Outcome, ghost ok: Bytes -> bool)
      returns (finished: bool, code: int)
      requires Valid() && 0 < nRead <= maxBufSize - rxBufSize
      requires o == Examined(rx[..rxBufSize + nRead], nRead, chunks, headInside, ok)
      modifies this
      ensures Valid() && (Decides(ok) ==> Became(o, finished, code))
    {
      finished, code := false, RT_OK;
      if headInside && rx[0] != RECV_HEAD {
        rxBufSize := 0;
        finished, code := true, RT_FAIL;
      } else {
        rxTimout, rxBufSize := 0, rxBufSize + nRead;
        if nRead >= HEAD_SIZE {
          var good;
          finished, good := CheckFrame();
          code := if good then RT_OK else RT_CRC_ERROR;
        }
      }
    }

    /** One turn of the loop: the head if it is missing, a chunk, the count of silent turns. */
    method OneTurn(headInside: bool, ghost ok: Bytes -> bool) returns (finished: bool, code: int)
      requires Decides(ok)
      requires Valid() && (maxBufSize > 0 || headInside)
      modifies this, rx
      ensures Valid() && Became(Turn(old(State()), maxBufSize, headInside, ok), finished, code)
    {
      finished, code := false, RT_OK;
      if rxBufSize == 0 && !headInside {
        ReadHead();
      }
      if rxBufSize > 0 || headInside {
        finished, code := ReadChunk(headInside, ok);
      }
      if !finished && rxTimout > TIMEOUT {
        finished, code := true, RT_TIMEOUT;
      }
    }

    /** CheckReceiveData. */
    method CheckReceiveData(headInside: bool, ghost ok: Bytes -> bool) returns (code: int)
      requires Decides(ok)
      requires Valid() && (maxBufSize > 0 || headInside)
      modifies this, rx
      ensures Valid() && (code, rx[..rxBufSize]) == Receive(Link([], old(chunks), 0), maxBufSize, headInside, ok)
    {
      rxBufSize, rxTimout, rxDataSize := 0, 0, 0;
      assert rx[..0] == [];
      var finished := false;
      code := RT_OK;
      ghost var received := Receive(Link([], chunks, 0), maxBufSize, headInside, ok);
      while !finished
        invariant Valid() && (!finished ==> rxTimout <= TIMEOUT)
        invariant received == if finished then (code, rx[..rxBufSize]) else Receive(State(), maxBufSize, headInside, ok)
        decreases !finished, maxBufSize - rxBufSize, TIMEOUT + 1 - rxTimout
      {
        TurnAdvances(State(), maxBufSize, headInside, ok);
        finished, code := OneTurn(headInside, ok);
      }
    }
  }
}
