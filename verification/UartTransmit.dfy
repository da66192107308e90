// The transmit side of the i.MX UART driver: the circular buffer, PIO and DMA, and the RS485 line states.
module UartTransmit {
  import opened Sequences
  import opened Octets

  /** UART_XMIT_SIZE, a power of two: masking with SIZE - 1 is the remainder. */
  const SIZE: nat := 4096

  // ----- the circular buffer -----

  /** The `n` bytes from `start` on, around the end of the buffer. */
  function Ring(b: Bytes, start: nat, n: nat): (r: Bytes)
    requires |b| == SIZE
    ensures |r| == n && forall i {:trigger r[i]} :: 0 <= i < n ==> r[i] == b[(start + i) % SIZE]
  {
    seq(n, (i: nat) => b[(start + i) % SIZE])
  }

  /** A ring is its first `k` bytes and then the ring from there. */
  lemma RingInTwo(b: Bytes, start: nat, n: nat, k: nat)
    requires |b| == SIZE && k <= n
    ensures Ring(b, start, k) + Ring(b, (start + k) % SIZE, n - k) == Ring(b, start, n)
  {
    var l, r := Ring(b, start, k) + Ring(b, (start + k) % SIZE, n - k), Ring(b, start, n);
    forall i | 0 <= i < n ensures l[i] == r[i] {
      if i >= k { assert ((start + k) % SIZE + (i - k)) % SIZE == (start + i) % SIZE; }
    }
  }

  /** Storing behind the last byte of a ring that is not full appends and disturbs nothing else. */
  lemma RingPut(b: Bytes, start: nat, n: nat, x: Byte)
    requires |b| == SIZE && n < SIZE
    ensures Ring(b[(start + n) % SIZE := x], start, n + 1) == Ring(b, start, n) + [x]
  {
    var l, r := Ring(b[(start + n) % SIZE := x], start, n + 1), Ring(b, start, n) + [x];
    forall i | 0 <= i < n + 1 ensures l[i] == r[i] {
      if i < n { assert (start + i) % SIZE != (start + n) % SIZE; }
    }
  }

  /** Storing behind a ring leaves it alone. */
  lemma RingOutside(b: Bytes, start: nat, n: nat, m: nat, x: Byte)
    requires |b| == SIZE && n <= m < SIZE
    ensures Ring(b[(start + m) % SIZE := x], start, n) == Ring(b, start, n)
  {
    var l, r := Ring(b[(start + m) % SIZE := x], start, n), Ring(b, start, n);
    forall i | 0 <= i < n ensures l[i] == r[i] {
      assert (start + i) % SIZE != (start + m) % SIZE;
    }
  }

  lemma PartBehind<T>(a: seq<T>, b: seq<T>)
    ensures Part(a + b, |a|, |b|) == b
  {
  }

  /** One stretch of memory, or two when the bytes run around the end. */
  lemma RingStretches(b: Bytes, start: nat, n: nat)
    requires |b| == SIZE && start < SIZE && n <= SIZE
    ensures start + n <= SIZE ==> Ring(b, start, n) == Part(b, start, n)
    ensures start + n > SIZE ==> Ring(b, start, n) == Part(b, start, SIZE - start) + Part(b, 0, start + n - SIZE)
  {
    forall i | 0 <= i < n && start + n > SIZE
      ensures Ring(b, start, n)[i] == (Part(b, start, SIZE - start) + Part(b, 0, start + n - SIZE))[i]
    {
      if i >= SIZE - start { assert (start + i) % SIZE == start + i - SIZE; }
    }
  }

  /** One entry of the scatter list. */
  datatype Stretch = Stretch(start: nat, length: nat)

  predicate InBuffer(sgl: seq<Stretch>) {
    forall i :: 0 <= i < |sgl| ==> sgl[i].start + sgl[i].length <= SIZE
  }

  /** What the DMA engine reads. */
  function Gather(b: Bytes, sgl: seq<Stretch>): Bytes
    requires |b| == SIZE && InBuffer(sgl)
  {
    if sgl == [] then [] else Part(b, sgl[0].start, sgl[0].length) + Gather(b, sgl[1..])
  }

  /** uart_circ_chars_pending. */
  function Chars(head: nat, tail: nat): (n: nat)
    requires head < SIZE && tail < SIZE
    ensures n < SIZE && (tail + n) % SIZE == head && (n == 0 <==> head == tail)
    ensures tail < head || head == 0 ==> tail + n <= SIZE
  {
    (head - tail) % SIZE
  }

  lemma WhereHeadIs(tail: nat, k: nat, n: nat)
    requires k <= n
    ensures ((tail + k) % SIZE + (n - k)) % SIZE == (tail + n) % SIZE
  {
  }

  lemma CharsMore(head: nat, tail: nat)
    requires head < SIZE && tail < SIZE && Chars(head, tail) < SIZE - 1
    ensures Chars((head + 1) % SIZE, tail) == Chars(head, tail) + 1
  {
  }

  /** What left the second part is what the first has grown by. */
  lemma Transferred<T>(a: seq<T>, b: seq<T>, c: seq<T>, d: seq<T>, n: nat)
    requires a + b == c + d && |c| == |a| + n && n <= |b|
    ensures c == a + b[..n]
  {
    assert (a + b)[..|c|] == a + b[..n] && (c + d)[..|c|] == c;
  }

  /** The oldest pending byte and the others. */
  lemma TakeFacts(b: Bytes, head: nat, tail: nat)
    requires |b| == SIZE && head < SIZE && tail < SIZE && head != tail
    ensures var n := Chars(head, tail);
      && Chars(head, (tail + 1) % SIZE) == n - 1
      && Ring(b, (tail + 0) % SIZE, n) == [b[tail]] + Ring(b, ((tail + 1) % SIZE + 0) % SIZE, n - 1)
  {
    Settled(tail);
    Settled((tail + 1) % SIZE);
    RingFirst(b, tail);
    RingInTwo(b, tail, Chars(head, tail), 1);
    CharsAfter(head, tail, 1);
  }

  lemma Settled(p: nat)
    requires p < SIZE
    ensures (p + 0) % SIZE == p
  {
  }

  lemma RingFirst(b: Bytes, start: nat)
    requires |b| == SIZE && start < SIZE
    ensures Ring(b, start, 1) == [b[start]]
  {
    assert (start + 0) % SIZE == start;
  }

  /** A byte stored at the head is the last pending one, and the first `k` are as they were. */
  lemma PutFacts(b: Bytes, head: nat, tail: nat, k: nat, x: Byte)
    requires |b| == SIZE && head < SIZE && tail < SIZE && k <= Chars(head, tail) < SIZE - 1
    ensures var n := Chars(head, tail);
      && Chars((head + 1) % SIZE, tail) == n + 1
      && Ring(b[head := x], (tail + k) % SIZE, n + 1 - k) == Ring(b, (tail + k) % SIZE, n - k) + [x]
      && Ring(b[head := x], tail, k) == Ring(b, tail, k)
  {
    var n := Chars(head, tail);
    WhereHeadIs(tail, k, n);
    RingPut(b, (tail + k) % SIZE, n - k, x);
    RingOutside(b, tail, k, n, x);
    CharsMore(head, tail);
  }

  /** Moving the tail over `k` pending bytes leaves the others pending. */
  lemma CharsAfter(head: nat, tail: nat, k: nat)
    requires head < SIZE && tail < SIZE && k <= Chars(head, tail)
    ensures Chars(head, (tail + k) % SIZE) == Chars(head, tail) - k
  {
    var n := Chars(head, tail);
    if tail + k < SIZE {
    } else {
      assert (tail + k) % SIZE == tail + k - SIZE;
    }
  }

  /** The stretches of the `n` bytes from `start` on. */
  function Stretches(start: nat, n: nat): (sgl: seq<Stretch>)
    requires start < SIZE && n <= SIZE
    ensures InBuffer(sgl)
  {
    if start + n <= SIZE then [Stretch(start, n)] else [Stretch(start, SIZE - start), Stretch(0, start + n - SIZE)]
  }

  /** The one or two entries are exactly those bytes, in order, across the wrap. */
  lemma {:induction false} GatherStretches(b: Bytes, start: nat, n: nat)
    requires |b| == SIZE && start < SIZE && n <= SIZE
    ensures Gather(b, Stretches(start, n)) == Ring(b, start, n)
  {
    RingStretches(b, start, n);
    if start + n <= SIZE {
      GatherOne(b, Stretch(start, n), []);
    } else {
      GatherOne(b, Stretch(0, start + n - SIZE), []);
      GatherOne(b, Stretch(start, SIZE - start), [Stretch(0, start + n - SIZE)]);
    }
  }

  lemma GatherOne(b: Bytes, s: Stretch, rest: seq<Stretch>)
    requires |b| == SIZE && s.start + s.length <= SIZE && InBuffer([s] + rest) && InBuffer(rest)
    ensures Gather(b, [s] + rest) == Part(b, s.start, s.length) + Gather(b, rest)
    ensures rest == [] ==> [s] + rest == [s] && Gather(b, [s]) == Part(b, s.start, s.length)
  {
    assert ([s] + rest)[0] == s && ([s] + rest)[1..] == rest;
    assert Gather(b, []) == [];
  }

  // ----- the line states -----

  datatype TxState = OFF | WAIT_AFTER_RTS | SEND | WAIT_AFTER_SEND

  /** Where imx_uart_start_tx leaves the state. */
  function AfterStart(s: TxState, rs485: bool, delayBefore: nat): TxState {
    if rs485 && s == OFF && delayBefore > 0 then WAIT_AFTER_RTS else SEND
  }

  /** Where imx_uart_stop_tx leaves it, when no DMA is running. */
  function AfterStop(s: TxState, rs485: bool, shifterDone: bool, delayAfter: nat): TxState {
    if !shifterDone then s else if rs485 && s == SEND && delayAfter > 0 then WAIT_AFTER_SEND else OFF
  }

  /** The hardware as a call finds it: room in the transmit FIFO, the shifter idle, the DMA engine willing. */
  datatype Hardware = Hardware(trdy: bool, txdc: bool, room: nat, shifterDone: bool, dmaReady: bool)

  datatype Event =
    | Write(b: Byte)
    | SetXChar(b: Byte)
    | SetStopped(stopped: bool)
    | StartTx(h: Hardware)
    | StopTx(h: Hardware)
    | Interrupt(h: Hardware)
    | DmaDone(h: Hardware)
    | StartTimer(h: Hardware)
    | StopTimer(h: Hardware)

  /** The hardware an event finds has sent its last bit. */
  predicate Idle(e: Event) {
    !e.Write? && !e.SetXChar? && !e.SetStopped? && e.h.shifterDone
  }

  class ImxPort {
    const rs485: bool
    const rtsOnSend: bool
    const rtsAfterSend: bool
    const rxDuringTx: bool
    const delayBefore: nat
    const delayAfter: nat
    const dmaEnabled: bool
    const haveRtscts: bool
    const haveRtsgpio: bool

    const buf: array<Byte>
    var head: nat
    var tail: nat
    var xChar: Byte
    var stopped: bool

    var txState: TxState
    var dmaIsTxing: bool
    var txBytes: nat
    var txSgl: seq<Stretch>

    var trdyen: bool
    var tcen: bool
    var txdmaen: bool
    var rts: bool
    var rxen: bool
    var loop: bool

    /** The bytes put in the buffer and the bytes handed to the hardware, since the port was opened. */
    ghost var written: Bytes
    ghost var handed: Bytes
    /** The special characters sent, which go out before what waits in the buffer. */
    ghost var special: Bytes
    ghost var wasSending: bool

    /** CTS is the UART's own and active while sending: the receiver must stay on, looped back. */
    predicate LoopsBack() {
      rs485 && rtsOnSend && haveRtscts && !haveRtsgpio
    }

    /** The transmit buffer is this port's own. */
    predicate InRange()
      reads `head, `tail
    {
      buf.Length == SIZE && head < SIZE && tail < SIZE
    }

    /** The pending bytes a running DMA has been given. */
    ghost function Flight(): nat
      reads `dmaIsTxing, `txBytes
    {
      if dmaIsTxing then txBytes else 0
    }

    /** The bytes still to be handed over. */
    ghost function Waiting(): Bytes
      requires InRange() && Flight() <= Chars(head, tail)
      reads `head, `tail, `dmaIsTxing, `txBytes, buf
    {
      Ring(buf[..], (tail + Flight()) % SIZE, Chars(head, tail) - Flight())
    }

    /** The bytes a running DMA was given are still the ones handed over last: it may read them at any time. */
    ghost predicate FlightKept()
      requires InRange() && Flight() <= Chars(head, tail)
      reads `head, `tail, `dmaIsTxing, `txBytes, `txSgl, `handed, buf
    {
      dmaIsTxing ==>
        && txSgl == Stretches(tail, txBytes)
        && txBytes <= |handed| && Ring(buf[..], tail, txBytes) == Part(handed, |handed| - txBytes, txBytes)
    }

    /** Nothing is lost, doubled or out of order; a running DMA reads the first pending bytes. */
    ghost predicate Fifo()
      reads `head, `tail, `dmaIsTxing, `txBytes, `txSgl, `handed, `written, buf
    {
      && InRange() && Flight() <= Chars(head, tail)
      && handed + Waiting() == written
      && FlightKept()
    }

    /** Whenever the engine reads its stretches, it finds the bytes handed over last. */
    lemma EngineReads()
      requires Fifo() && dmaIsTxing
      ensures Gather(buf[..], txSgl) == Part(handed, |handed| - txBytes, txBytes)
    {
      GatherStretches(buf[..], tail, txBytes);
    }

    /**
     * The engine's requests are enabled while a transfer runs, and never otherwise; a special character
     * suspends them only while the interrupt that restores them is on.
     */
    ghost predicate EngineEnabled()
      reads `trdyen, `txdmaen, `dmaIsTxing
    {
      (dmaIsTxing ==> txdmaen || trdyen) && (txdmaen ==> dmaIsTxing)
    }

    /** What the state says about the interrupt enables, the RTS line and the receiver. */
    ghost predicate Line()
      reads `trdyen, `tcen, `txdmaen, `dmaIsTxing, `txState, `rts, `rxen, `loop, `wasSending
    {
      && (trdyen || tcen || dmaIsTxing ==> txState == SEND)
      && (dmaIsTxing ==> dmaEnabled)
      && EngineEnabled()
      && (rs485 && !dmaEnabled ==> (tcen <==> txState == SEND))
      && (rs485 ==>
            && rts == (if txState == OFF then rtsAfterSend else rtsOnSend)
            && (!rxDuringTx && txState != OFF ==> !rxen || loop)
            && (txState == OFF ==> rxen)
            && (loop <==> wasSending && !rxDuringTx && LoopsBack())
            && (txState != OFF ==> wasSending))
      && (!rs485 ==> txState == OFF || txState == SEND)
      && (delayBefore == 0 ==> txState != WAIT_AFTER_RTS) && (delayAfter == 0 ==> txState != WAIT_AFTER_SEND)
    }

    /**
     * From one state to the next: the delay before sending comes before the first byte, the line is given up
     * only when the last bit has left the shifter, and the delay behind it comes before RTS changes.
     */
    ghost predicate InTurn(s: TxState, next: TxState, shifterDone: bool) {
      && (rs485 && delayBefore > 0 && s == OFF ==> next != SEND)
      && (s == SEND && next != SEND ==> shifterDone)
      && (rs485 && delayAfter > 0 && s == SEND ==> next != OFF)
    }

    ghost predicate Valid()
      reads this, buf
    {
      Fifo() && Line()
    }

    /** The line is ours: a byte written now goes out with RTS at its sending level and is not received. */
    ghost predicate Driven()
      reads this
    {
      txState == SEND && (rs485 ==> rts == rtsOnSend && (rxDuringTx || !rxen || loop))
    }

    /** The receiver listens to the line. */
    predicate Hears()
      reads this
    {
      rxen && !loop
    }

    /** An opened port. */
    constructor (rs485: bool, rtsOnSend: bool, rtsAfterSend: bool, rxDuringTx: bool, delayBefore: nat, delayAfter: nat,
                 dmaEnabled: bool, haveRtscts: bool, haveRtsgpio: bool)
      ensures Valid() && fresh(buf) && written == [] && special == [] && txState == OFF && Hears()
      ensures this.rs485 == rs485 && this.rtsOnSend == rtsOnSend && this.rtsAfterSend == rtsAfterSend
      ensures this.rxDuringTx == rxDuringTx && this.delayBefore == delayBefore && this.delayAfter == delayAfter
      ensures this.dmaEnabled == dmaEnabled && this.haveRtscts == haveRtscts && this.haveRtsgpio == haveRtsgpio
    {
      this.rs485, this.rtsOnSend, this.rtsAfterSend, this.rxDuringTx := rs485, rtsOnSend, rtsAfterSend, rxDuringTx;
      this.delayBefore, this.delayAfter, this.dmaEnabled := delayBefore, delayAfter, dmaEnabled;
      this.haveRtscts, this.haveRtsgpio := haveRtscts, haveRtsgpio;
      buf := new Byte[SIZE];
      head, tail, xChar, stopped := 0, 0, 0, false;
      txState, dmaIsTxing, txBytes, txSgl := OFF, false, 0, [];
      trdyen, tcen, txdmaen, rts, rxen, loop := false, false, false, rtsAfterSend, true, false;
      written, handed, special, wasSending := [], [], [], false;
    }

    method Store(b: Byte)
      requires Fifo() && Chars(head, tail) < SIZE - 1
      modifies this`head, this`written, buf
      ensures Fifo() && written == old(written) + [b]
    {
      PutFacts(buf[..], head, tail, Flight(), b);
      Regroup(handed, Waiting(), [b]);
      buf[head] := b;
      assert buf[..] == old(buf[..])[head := b];
      head := (head + 1) % SIZE;
      written := written + [b];
    }

    /** The serial core puts a byte in the buffer if there is space. */
    method PutChar(b: Byte) returns (ok: bool)
      requires Fifo()
      modifies this`head, this`written, buf
      ensures Fifo() && ok == (Chars(old(head), tail) < SIZE - 1)
      ensures written == if ok then old(written) + [b] else old(written)
      ensures dmaIsTxing ==>
        Gather(buf[..], txSgl) == old(Gather(buf[..], txSgl)) == Part(handed, |handed| - txBytes, txBytes)
    {
      ok := Chars(head, tail) < SIZE - 1;
      if dmaIsTxing { EngineReads(); }
      if ok {
        Store(b);
        if dmaIsTxing { EngineReads(); }
      }
    }

    /** imx_uart_start_rx: it switches the receiver on and leaves the loop as it is. */
    method StartRx()
      modifies this`rxen
      ensures rxen
    {
      rxen := true;
    }

    /** imx_uart_stop_rx. */
    method StopRx()
      modifies this`rxen, this`loop
      ensures if LoopsBack() then rxen && loop else !rxen && loop == old(loop)
    {
      if LoopsBack() {
        loop := true;
        rxen := true;
      } else {
        rxen := false;
      }
    }

    /** imx_uart_stop_tx. Once it has switched off, the receiver hears the line unless it was looped back. */
    method StopTx(shifterDone: bool)
      requires Line()
      modifies this`trdyen, this`tcen, this`txState, this`rts, this`rxen
      ensures Line()
      ensures txState == if dmaIsTxing then old(txState) else AfterStop(old(txState), rs485, shifterDone, delayAfter)
      ensures trdyen == (dmaIsTxing && old(trdyen))
      ensures shifterDone && !dmaIsTxing && (delayAfter == 0 || old(txState) != SEND) ==> txState == OFF
      ensures rs485 && old(txState) != OFF && txState == OFF ==> (Hears() <==> rxDuringTx || !LoopsBack())
    {
      if txState == OFF || dmaIsTxing {
        return;
      }
      trdyen := false;
      if !shifterDone {
        return;
      }
      tcen := false;
      if rs485 {
        if txState == SEND {
          txState := WAIT_AFTER_SEND;
          if delayAfter > 0 {
            return;
          }
        }
        if txState == WAIT_AFTER_RTS || txState == WAIT_AFTER_SEND {
          rts := rtsAfterSend;
          StartRx();
          txState := OFF;
        }
      } else {
        txState := OFF;
      }
    }

    /** A data byte goes to the transmit register; never while the line is not ours. */
    method WriteData(b: Byte)
      requires Driven()
      modifies this`handed
      ensures handed == old(handed) + [b]
    {
      handed := handed + [b];
    }

    /** The special character goes to the transmit register. */
    method WriteSpecial()
      requires Driven()
      modifies this`special
      ensures special == old(special) + [xChar]
    {
      special := special + [xChar];
    }

    /** The scatter list of imx_uart_dma_tx: one stretch, or two around the end of the buffer. */
    method FillScatterList()
      requires Fifo() && !dmaIsTxing && head != tail
      modifies this`txBytes, this`txSgl
      ensures Fifo() && txBytes == Chars(head, tail) && txSgl == Stretches(tail, txBytes)
    {
      txBytes := Chars(head, tail);
      if tail < head || head == 0 {
        txSgl := [Stretch(tail, txBytes)];
      } else {
        txSgl := [Stretch(tail, SIZE - tail), Stretch(0, head)];
      }
    }

    /** Handing the pending bytes to the engine: from now on it may read them. */
    method StartFlight()
      requires Fifo() && Driven() && !dmaIsTxing && txBytes == Chars(head, tail) && txSgl == Stretches(tail, txBytes)
      modifies this`dmaIsTxing, this`handed
      ensures Fifo() && dmaIsTxing && handed == old(handed) + old(Waiting())
    {
      GatherStretches(buf[..], tail, txBytes);
      PartBehind(handed, Gather(buf[..], txSgl));
      Settled(tail);
      dmaIsTxing := true;
      handed := handed + Gather(buf[..], txSgl);
    }

    /** The engine is done: the bytes it read leave the buffer. */
    method EndFlight()
      requires Fifo() && dmaIsTxing
      modifies this`tail, this`dmaIsTxing
      ensures Fifo() && !dmaIsTxing && Waiting() == old(Waiting()) && tail == (old(tail) + txBytes) % SIZE
    {
      CharsAfter(head, tail, txBytes);
      tail := (tail + txBytes) % SIZE;
      dmaIsTxing := false;
      Settled(tail);
    }

    /** imx_uart_dma_tx: all pending bytes go to the DMA engine in one or two stretches. */
    method DmaTx(ready: bool)
      requires Valid() && dmaEnabled && Driven() && (!dmaIsTxing ==> head != tail)
      modifies this`tcen, this`txBytes, this`txSgl, this`txdmaen, this`dmaIsTxing, this`handed
      ensures Valid() && dmaIsTxing == (old(dmaIsTxing) || ready)
      ensures handed == old(handed) + if !old(dmaIsTxing) && ready then old(Waiting()) else []
      ensures if old(dmaIsTxing) then txdmaen == old(txdmaen) && tcen == old(tcen) else txdmaen == ready && !tcen
    {
      AppendNothing(handed);
      if !dmaIsTxing {
        tcen := false;
        FillScatterList();
        if ready {
          txdmaen := true;
          StartFlight();
        }
      }
    }

    /** How many of the waiting bytes imx_uart_transmit_buffer hands over. */
    ghost function Taken(h: Hardware): nat
      requires Fifo()
      reads this, buf
    {
      if xChar != 0 || stopped || head == tail then 0
      else if dmaEnabled then (if h.dmaReady && !dmaIsTxing then |Waiting()| else 0)
      else if h.room < |Waiting()| then h.room else |Waiting()|
    }

    /** Whether it ends in imx_uart_stop_tx. */
    ghost predicate Stops(h: Hardware)
      requires Fifo()
      reads this, buf
    {
      xChar == 0 && (stopped || head == tail || (!dmaEnabled && |Waiting()| <= h.room))
    }

    /** Its DMA branch. */
    method TransmitByDma(ready: bool)
      requires Valid() && txState == SEND && dmaEnabled && head != tail
      modifies this`trdyen, this`tcen, this`txBytes, this`txSgl, this`txdmaen, this`dmaIsTxing, this`handed
      ensures Valid() && !trdyen && dmaIsTxing == txdmaen == (old(dmaIsTxing) || ready)
      ensures handed == old(handed) + if !old(dmaIsTxing) && ready then old(Waiting()) else []
    {
      trdyen := false;
      if dmaIsTxing {
        txdmaen := true;
        AppendNothing(handed);
      } else {
        DmaTx(ready);
      }
    }

    /** Its PIO branch, which ends in imx_uart_stop_tx if nothing is left. */
    method TransmitByPio(room: nat, shifterDone: bool)
      requires Valid() && txState == SEND && !dmaEnabled
      modifies this`trdyen, this`tcen, this`txState, this`rts, this`rxen, this`tail, this`handed
      ensures Valid()
      ensures var n := |old(Waiting())|; handed == old(handed) + old(Waiting())[..if room < n then room else n]
      ensures txState == if |old(Waiting())| <= room then AfterStop(SEND, rs485, shifterDone, delayAfter) else SEND
    {
      FillFifo(room);
      if head == tail {
        StopTx(shifterDone);
      }
    }

    /** The part of imx_uart_transmit_buffer behind the special character. */
    method TransmitWaiting(h: Hardware)
      requires Valid() && txState == SEND && xChar == 0
      modifies this`trdyen, this`tcen, this`txState, this`rts, this`rxen, this`tail, this`txBytes, this`txSgl,
               this`txdmaen, this`dmaIsTxing, this`handed
      ensures Valid()
      ensures dmaIsTxing && old(head != tail && !stopped) ==> txdmaen && !trdyen
      ensures handed == old(handed) + old(Waiting()[..Taken(h)])
      ensures txState == if old(Stops(h)) && !old(dmaIsTxing) then AfterStop(SEND, rs485, h.shifterDone, delayAfter)
           else SEND
    {
      if head == tail || stopped {
        AppendNothing(handed);
        StopTx(h.shifterDone);
      } else if dmaEnabled {
        assert Waiting()[..|Waiting()|] == Waiting() && Waiting()[..0] == [];
        TransmitByDma(h.dmaReady);
      } else {
        TransmitByPio(h.room, h.shifterDone);
      }
    }

    /** imx_uart_transmit_buffer, which runs only while the state is SEND. */
    method TransmitBuffer(h: Hardware)
      requires Valid() && txState == SEND
      modifies this`trdyen, this`tcen, this`txState, this`rts, this`rxen, this`xChar, this`tail, this`txBytes,
               this`txSgl, this`txdmaen, this`dmaIsTxing, this`handed, this`special
      ensures Valid() && xChar == 0
      ensures special == old(special) + if old(xChar) != 0 then [old(xChar)] else []
      ensures dmaIsTxing && old(xChar == 0 && head != tail && !stopped) ==> txdmaen && !trdyen
      ensures handed == old(handed) + old(Waiting()[..Taken(h)])
      ensures txState == if old(Stops(h)) && !old(dmaIsTxing) then AfterStop(SEND, rs485, h.shifterDone, delayAfter)
           else SEND
    {
      AppendNothing(special);
      if xChar != 0 {
        WriteSpecial();
        xChar := 0;
        AppendNothing(handed);
        return;
      }
      TransmitWaiting(h);
    }

    /** One turn of the PIO loop. */
    method WriteNext()
      requires Fifo() && Driven() && !dmaIsTxing && head != tail
      modifies this`tail, this`handed
      ensures Fifo() && old(Waiting()) == [old(Waiting())[0]] + Waiting() && handed == old(handed) + [old(Waiting())[0]]
    {
      TakeFacts(buf[..], head, tail);
      WriteData(buf[tail]);
      tail := (tail + 1) % SIZE;
      Regroup(old(handed), [buf[old(tail)]], Waiting());
    }

    /** The PIO loop: one byte after the other while the FIFO takes them. */
    method FillFifo(room: nat)
      requires Fifo() && Driven() && !dmaIsTxing
      modifies this`tail, this`handed
      ensures Fifo() && (head == tail <==> |old(Waiting())| <= room)
      ensures handed == old(handed) + old(Waiting())[..if room < |old(Waiting())| then room else |old(Waiting())|]
    {
      var sent := 0;
      while head != tail && sent < room
        invariant Fifo() && sent <= room && sent <= |old(Waiting())|
        invariant |Waiting()| == |old(Waiting())| - sent && |handed| == |old(handed)| + sent
        decreases room - sent
      {
        WriteNext();
        sent := sent + 1;
      }
      Transferred(old(handed), old(Waiting()), handed, Waiting(), sent);
    }

    /** imx_uart_dma_tx_callback: the stretch read is done with, and what came in meanwhile starts at once. */
    method DmaTxCallback(ready: bool)
      requires Valid() && dmaIsTxing
      modifies this`tail, this`txdmaen, this`dmaIsTxing, this`txBytes, this`txSgl, this`tcen, this`handed
      ensures Valid() && txState == SEND
      ensures handed == old(handed) + if !stopped && ready then old(Waiting()) else []
      ensures txdmaen == dmaIsTxing == (!stopped && ready && head != tail)
      ensures tcen == (!(head != tail && !stopped) && (rs485 || old(tcen)))
    {
      txdmaen := false;
      EndFlight();
      if head != tail && !stopped {
        DmaTx(ready);
      } else {
        if rs485 {
          tcen := true;
        }
        AppendNothing(handed);
      }
    }

    /** imx_uart_start_tx. */
    method StartTx(h: Hardware)
      requires Valid()
      modifies this`rts, this`rxen, this`loop, this`txState, this`wasSending, this`tcen, this`trdyen, this`txdmaen,
               this`txBytes, this`txSgl, this`dmaIsTxing, this`handed
      ensures Valid()
      ensures txState == if xChar == 0 && head == tail then old(txState)
           else AfterStart(old(txState), rs485, delayBefore)
      ensures (xChar == 0 && head == tail) || txState != SEND ==> trdyen == old(trdyen) && handed == old(handed)
      ensures (xChar != 0 || head != tail) && txState == SEND && (!dmaEnabled || xChar != 0) ==>
        trdyen && !txdmaen && handed == old(handed)
      ensures (xChar != 0 || head != tail) && txState == SEND && dmaEnabled && xChar == 0
        ==> handed == old(handed) + if h.dmaReady && !stopped && !old(dmaIsTxing) then old(Waiting()) else []
    {
      if xChar == 0 && head == tail {
        return;
      }
      TakeLine();
      if txState == SEND {
        StartSending(h.dmaReady);
      }
    }

    /** Its last part: the interrupt for PIO and the special character, or DMA. */
    method StartSending(ready: bool)
      requires Valid() && txState == SEND && (xChar != 0 || head != tail)
      modifies this`tcen, this`trdyen, this`txdmaen, this`txBytes, this`txSgl, this`dmaIsTxing, this`handed
      ensures Valid()
      ensures !dmaEnabled || xChar != 0 ==> trdyen && !txdmaen && handed == old(handed)
      ensures dmaEnabled && xChar == 0
        ==> handed == old(handed) + if ready && !stopped && !old(dmaIsTxing) then old(Waiting()) else []
    {
      AppendNothing(handed);
      if !dmaEnabled {
        trdyen := true;
      } else if xChar != 0 {
        txdmaen := false;
        trdyen := true;
      } else if !stopped {
        DmaTx(ready);
      }
    }

    /** The state part of imx_uart_start_tx; with a delay before sending it stops short of SEND. */
    method TakeLine()
      requires Line()
      modifies this`rts, this`rxen, this`loop, this`txState, this`wasSending, this`tcen
      ensures Line() && txState == AfterStart(old(txState), rs485, delayBefore)
    {
      if rs485 {
        if txState == OFF {
          rts := rtsOnSend;
          if !rxDuringTx {
            StopRx();
          }
          txState, wasSending := WAIT_AFTER_RTS, true;
          if delayBefore > 0 {
            return;
          }
        }
        if txState == WAIT_AFTER_SEND || txState == WAIT_AFTER_RTS {
          if !dmaEnabled {
            tcen := true;
          }
          txState := SEND;
        }
      } else {
        txState := SEND;
      }
    }

    /** The transmit part of imx_uart_int: a status bit counts only if its interrupt is enabled. */
    method IrqHandler(h: Hardware)
      requires Valid()
      modifies this`trdyen, this`tcen, this`txState, this`rts, this`rxen, this`xChar, this`tail, this`txBytes,
               this`txSgl, this`txdmaen, this`dmaIsTxing, this`handed, this`special
      ensures Valid()
      ensures if old((trdyen && h.trdy) || (tcen && h.txdc)) then
                xChar == 0 && special == old(special) + if old(xChar) != 0 then [old(xChar)] else []
              else xChar == old(xChar) && special == old(special)
      ensures InTurn(old(txState), txState, h.shifterDone)
      ensures var runs := old((trdyen && h.trdy) || (tcen && h.txdc));
        handed == old(handed) + if runs then old(Waiting()[..Taken(h)]) else []
    {
      if (trdyen && h.trdy) || (tcen && h.txdc) {
        TransmitBuffer(h);
      } else {
        AppendNothing(handed);
      }
    }

    /** What the hardware causes: an interrupt, the end of a transfer, a timer that runs out. */
    method Serve(e: Event)
      requires Valid() && (e.Interrupt? || e.DmaDone? || e.StartTimer? || e.StopTimer?)
      modifies this
      ensures Valid() && old(handed) <= handed && written == old(written) && InTurn(old(txState), txState, Idle(e))
      ensures if xChar == old(xChar) then special == old(special)
              else xChar == 0 && special == old(special) + [old(xChar)]
    {
      match e {
        case Interrupt(h) => IrqHandler(h);
        case DmaDone(h) => if dmaIsTxing { DmaTxCallback(h.dmaReady); }
        case StartTimer(h) => if txState == WAIT_AFTER_RTS { StartTx(h); }
        case StopTimer(h) => if txState == WAIT_AFTER_SEND { StopTx(h.shifterDone); }
        case _ =>
      }
    }

    /**
     * One step of the environment or of the driver. The timers may fire at any moment, and the delays they
     * measure are kept. A special character that is pending goes out once or is replaced.
     */
    method Execute(e: Event)
      requires Valid()
      modifies this, buf
      ensures Valid() && old(handed) <= handed && old(special) <= special && InTurn(old(txState), txState, Idle(e))
      ensures written == old(written) || (e.Write? && written == old(written) + [e.b])
      ensures if e.SetXChar? then xChar == e.b && special == old(special)
              else if xChar == old(xChar) then special == old(special)
              else xChar == 0 && special == old(special) + [old(xChar)]
    {
      match e {
        case Write(b) => var _ := PutChar(b);
        case SetXChar(b) => xChar := b;
        case SetStopped(s) => stopped := s;
        case StartTx(h) => StartTx(h);
        case StopTx(h) => StopTx(h.shifterDone);
        case _ => Serve(e);
      }
    }

    /**
     * Any interleaving: the bytes handed over are the bytes written, in order and each once, except for
     * those still waiting; and the line invariant holds.
     */
    method Run(es: seq<Event>)
      requires Valid()
      modifies this, buf
      ensures Valid() && old(written) <= written && old(handed) <= handed <= written && old(special) <= special
    {
      var i := 0;
      while i < |es|
        invariant 0 <= i <= |es| && Valid()
        invariant old(written) <= written && old(handed) <= handed && old(special) <= special
      {
        Execute(es[i]);
        i := i + 1;
      }
    }
  }
}
