/** The UART's data register has four byte lanes; software counters must follow the hardware's FIFO pointers (uart.c,
    uart.h). */
module UartLanes {
  type byte = x: int | 0 <= x < 0x100

  const DEPTH: nat := 8

  /** The bits of the interrupt status register that software can write. */
  datatype Bit = RxBuf | TxBuf | RxDone | TxDone | RxErr

  datatype Status = Success | Timeout

  /** The software counters `tx`, `hword`, `rx`, the hardware's pointers modulo 4, and the bytes waiting to be sent. */
  datatype Lanes = Lanes(tx: nat, hword: nat, rx: nat, txPtr: nat, rxPtr: nat, fifo: nat)

  /** One thing that software or hardware does. `Wake` is a wake-up from suspend, which resets the hardware alone. */
  datatype Op =
    | Elapse(gone: nat)
    | SendByte(status: Status)
    | SendHword(status: Status)
    | SendWord(status: Status)
    | ReadByte
    | ClearIrq(bits: set<Bit>)
    | FsmReset
    | ClearTxIndex
    | ClearRxIndex
    | Wake

  const START := Lanes(0, 0, 0, 0, 0, 0)

  /** `uart_byte_txfifo_is_full`, `uart_hword_txfifo_is_full`, `uart_word_txfifo_is_full` */
  predicate Full(width: nat, fifo: nat)
  {
    if width == 1 then fifo > 7 else if width == 2 then fifo > 6 else fifo > 4
  }

  /** Each width's predicate holds exactly when its bytes do not fit. */
  lemma FullExactly(width: nat, fifo: nat)
    requires width == 1 || width == 2 || width == 4
    ensures Full(width, fifo) <==> fifo + width > DEPTH
  {
  }

  /** A send returns with success only when its FIFO predicate let it; no more leaves the FIFO than is there. */
  predicate Enabled(s: Lanes, op: Op)
  {
    match op
    case Elapse(gone) => gone <= s.fifo
    case SendByte(Success) => !Full(1, s.fifo)
    case SendHword(Success) => !Full(2, s.fifo)
    case SendWord(Success) => !Full(4, s.fifo)
    case _ => true
  }

  function Stored(s: Lanes, width: nat): Lanes
  {
    s.(txPtr := (s.txPtr + width) % 4, fifo := s.fifo + width)
  }

  /** Writing the status register: the bits in `clearing` empty the receive FIFO and rewind its pointer. */
  function Written(s: Lanes, bits: set<Bit>, clearing: set<Bit>): Lanes
  {
    if bits !! clearing then s else s.(rxPtr := 0)
  }

  /** `uart_clr_irq_status` compares for equality; `RxDone` alone writes the register twice. */
  function Cleared(s: Lanes, bits: set<Bit>, clearing: set<Bit>): Lanes
  {
    if bits == {RxDone} then Written(Written(s, {RxBuf}, clearing).(rx := 0), bits, clearing)
    else if bits == {RxBuf} then Written(s.(rx := 0), bits, clearing)
    else Written(s, bits, clearing)
  }

  function Step(s: Lanes, op: Op, clearing: set<Bit>): Lanes
    requires Enabled(s, op)
  {
    match op
    case Elapse(gone) => s.(fifo := s.fifo - gone)
    case SendByte(Success) => Stored(s, 1).(tx := (s.tx + 1) % 4)
    case SendHword(Success) => Stored(s, 2).(hword := (s.hword + 1) % 2)
    case SendWord(Success) => Stored(s, 4)
    case ReadByte => s.(rx := (s.rx + 1) % 4, rxPtr := (s.rxPtr + 1) % 4)
    case ClearIrq(bits) => Cleared(s, bits, clearing)
    case FsmReset => s.(tx := 0, rx := 0, txPtr := 0, rxPtr := 0, fifo := 0)
    case ClearTxIndex => s.(tx := 0)
    case ClearRxIndex => s.(rx := 0)
    case Wake => s.(txPtr := 0, rxPtr := 0, fifo := 0)
    case _ => s
  }

  /** The state after `run`, which power-up precedes. */
  function After(run: seq<Op>, clearing: set<Bit>): Lanes
    requires Legal(run, clearing)
    decreases |run|, 1
  {
    if run == [] then START else Step(After(run[..|run| - 1], clearing), run[|run| - 1], clearing)
  }

  /** Every operation was possible when it happened. */
  predicate Legal(run: seq<Op>, clearing: set<Bit>)
    decreases |run|, 0
  {
    run == [] || (Legal(run[..|run| - 1], clearing) && Enabled(After(run[..|run| - 1], clearing), run[|run| - 1]))
  }

  // ------------------------- what a run has done

  /**
   * Successful sends, counted since the events that rewind each counter: `bytes` since the byte index was cleared,
   * `bytesIn` and `hwordsIn` since the hardware was reset, `hwords` since power-up.
   */
  datatype Tally = Tally(bytes: nat, bytesIn: nat, hwordsIn: nat, hwords: nat)

  function Counted(t: Tally, op: Op): Tally
  {
    match op
    case SendByte(Success) => t.(bytes := t.bytes + 1, bytesIn := t.bytesIn + 1)
    case SendHword(Success) => t.(hwordsIn := t.hwordsIn + 1, hwords := t.hwords + 1)
    case FsmReset => Tally(0, 0, 0, t.hwords)
    case ClearTxIndex => t.(bytes := 0)
    case Wake => t.(bytesIn := 0, hwordsIn := 0)
    case _ => t
  }

  function Sends(run: seq<Op>): Tally
  {
    if run == [] then Tally(0, 0, 0, 0) else Counted(Sends(run[..|run| - 1]), run[|run| - 1])
  }

  predicate Agrees(s: Lanes, t: Tally)
  {
    && s.tx == t.bytes % 4
    && s.hword == t.hwords % 2
    && s.txPtr == (t.bytesIn + 2 * t.hwordsIn) % 4
    && s.fifo <= DEPTH
  }

  lemma AdvanceModFour(x: nat, width: nat)
    ensures (x % 4 + width) % 4 == (x + width) % 4
  {
  }

  lemma StepAgrees(s: Lanes, t: Tally, op: Op, clearing: set<Bit>)
    requires Agrees(s, t) && Enabled(s, op)
    ensures Agrees(Step(s, op, clearing), Counted(t, op))
  {
    var x := t.bytesIn + 2 * t.hwordsIn;
    AdvanceModFour(t.bytes, 1);
    AdvanceModFour(x, 1);
    AdvanceModFour(x, 2);
    AdvanceModFour(x, 4);
  }

  /** After every run: where each index and the pointer stand, and that the FIFO never overflows. */
  lemma {:induction false} LanesAgree(run: seq<Op>, clearing: set<Bit>)
    requires Legal(run, clearing)
    ensures Agrees(After(run, clearing), Sends(run))
  {
    if run != [] {
      var init := run[..|run| - 1];
      LanesAgree(init, clearing);
      StepAgrees(After(init, clearing), Sends(init), run[|run| - 1], clearing);
    }
  }

  /** Neither the pointer alone nor the index alone is rewound. */
  predicate Paired(run: seq<Op>)
  {
    forall k :: 0 <= k < |run| ==> run[k] != Wake && run[k] != ClearTxIndex
  }

  lemma {:induction false} PairedCounts(run: seq<Op>)
    requires Paired(run)
    ensures Sends(run).bytes == Sends(run).bytesIn
  {
    if run != [] {
      assert run[|run| - 1] != Wake && run[|run| - 1] != ClearTxIndex;
      PairedCounts(run[..|run| - 1]);
    }
  }

  lemma TwiceModFour(b: nat, h: nat)
    ensures (b + 2 * h) % 4 == (b + 2 * (h % 2)) % 4
    ensures (b + 2 * h) % 4 == b % 4 <==> h % 2 == 0
  {
    var q := h / 2;
    assert h == 2 * q + h % 2;
    assert b + 2 * h == b + 2 * (h % 2) + 4 * q;
  }

  /** The next byte goes to the lane under the pointer exactly when the half-words sent since the last reset are even in
      number. */
  lemma ByteLaneExactly(run: seq<Op>, clearing: set<Bit>)
    requires Legal(run, clearing) && Paired(run)
    ensures After(run, clearing).tx == After(run, clearing).txPtr <==> Sends(run).hwordsIn % 2 == 0
  {
    LanesAgree(run, clearing);
    PairedCounts(run);
    TwiceModFour(Sends(run).bytesIn, Sends(run).hwordsIn);
  }

  lemma HwordLane(b: nat, h: nat, n: nat)
    ensures 2 * (n % 2) == (b + 2 * h) % 4 <==> (b + 2 * (h + n)) % 4 == 0
  {
    TwiceModFour(b + 2 * h, n);
    var x := (b + 2 * h) % 4;
    AdvanceModFour(b + 2 * h, 2 * (n % 2));
    assert b + 2 * (h + n) == b + 2 * h + 2 * n;
    assert n % 2 == 0 || n % 2 == 1;
  }

  /** The next half-word goes to the lanes under the pointer exactly when this holds; its index survives a reset, so
      `hwords` counts from power-up. */
  lemma HwordLaneExactly(run: seq<Op>, clearing: set<Bit>)
    requires Legal(run, clearing)
    ensures 2 * After(run, clearing).hword == After(run, clearing).txPtr
       <==> (Sends(run).bytesIn + 2 * (Sends(run).hwordsIn + Sends(run).hwords)) % 4 == 0
  {
    LanesAgree(run, clearing);
    HwordLane(Sends(run).bytesIn, Sends(run).hwordsIn, Sends(run).hwords);
  }

  /** One half-word, a reset, and the next half-word goes to the wrong lanes, though nothing else was sent. */
  lemma HwordIndexSurvivesReset(clearing: set<Bit>)
    ensures Legal([SendHword(Success), FsmReset], clearing)
    ensures After([SendHword(Success), FsmReset], clearing).hword == 1
    ensures After([SendHword(Success), FsmReset], clearing).txPtr == 0
  {
    var one, run := [SendHword(Success)], [SendHword(Success), FsmReset];
    assert run[..1] == one && one[..0] == [];
    assert After([], clearing) == START;
    assert Legal(one, clearing);
    assert After(one, clearing) == Step(START, SendHword(Success), clearing);
    assert Legal(run, clearing);
    assert After(run, clearing) == Step(After(one, clearing), FsmReset, clearing);
  }

  // ------------------------- the receive index

  predicate RxInStep(s: Lanes)
  {
    s.rx == s.rxPtr < 4
  }

  /** Clearing status bits keeps the receive index in step exactly in these cases, whatever further bits rewind the
      pointer. */
  lemma ClearIrqExactly(s: Lanes, bits: set<Bit>, clearing: set<Bit>)
    requires RxInStep(s) && RxBuf in clearing
    ensures RxInStep(Step(s, ClearIrq(bits), clearing)) <==> bits == {RxDone} || bits == {RxBuf} || bits !! clearing || s.rx == 0
  {
    assert RxBuf in {RxBuf};
    if bits == {RxDone} {
      assert !({RxBuf} !! clearing);
    }
  }

  /** Clearing `RxBuf` together with another bit, after one byte has been read, leaves the index behind. */
  lemma CombinedClearFails(s: Lanes, clearing: set<Bit>)
    requires RxInStep(s) && RxBuf in clearing && s.rx == 1
    ensures !RxInStep(Step(s, ClearIrq({RxBuf, RxErr}), clearing))
  {
    assert RxBuf in {RxBuf, RxErr} && RxErr in {RxBuf, RxErr};
    assert {RxBuf, RxErr} != {RxBuf} && {RxBuf, RxErr} != {RxDone};
    ClearIrqExactly(s, {RxBuf, RxErr}, clearing);
  }

  /** What keeps the receive side in step from any state: `RxBuf` or `RxDone` must be cleared alone. */
  predicate Careful(op: Op, clearing: set<Bit>)
  {
    && op != Wake && op != ClearRxIndex
    && (op.ClearIrq? ==> op.bits == {RxDone} || op.bits == {RxBuf} || op.bits !! clearing)
  }

  lemma {:induction false} RxStaysInStep(run: seq<Op>, clearing: set<Bit>)
    requires RxBuf in clearing && Legal(run, clearing)
    requires forall k :: 0 <= k < |run| ==> Careful(run[k], clearing)
    ensures RxInStep(After(run, clearing))
  {
    if run != [] {
      var init, op := run[..|run| - 1], run[|run| - 1];
      RxStaysInStep(init, clearing);
      assert Careful(op, clearing);
      if op.ClearIrq? {
        ClearIrqExactly(After(init, clearing), op.bits, clearing);
      }
    }
  }

  /** A reset, `RxBuf` alone, `RxDone` alone, or the wake-up that also clears both indices mends any state. */
  lemma Resynchronised(s: Lanes, clearing: set<Bit>)
    requires RxBuf in clearing
    ensures RxInStep(Step(s, FsmReset, clearing))
    ensures RxInStep(Step(s, ClearIrq({RxBuf}), clearing)) && RxInStep(Step(s, ClearIrq({RxDone}), clearing))
    ensures Step(Step(Step(s, Wake, clearing), ClearTxIndex, clearing), ClearRxIndex, clearing) == Step(s, FsmReset, clearing)
  {
    assert RxBuf in {RxBuf};
    assert !({RxBuf} !! clearing);
  }

  // ------------------------- the driver

  class Uart {
    /** The status bits that empty the receive FIFO, on this device. */
    const clearing: set<Bit>
    var txIndex: nat
    var hwordIndex: nat
    var rxIndex: nat
    var txPtr: nat
    var rxPtr: nat
    var txCount: nat
    /** Everything that has entered the transmit FIFO, and what waits in the receive FIFO. */
    ghost var queued: seq<byte>
    var arrived: seq<byte>
    /** How many waits have timed out. */
    ghost var timeouts: nat

    ghost function State(): Lanes
      reads this
    {
      Lanes(txIndex, hwordIndex, rxIndex, txPtr, rxPtr, txCount)
    }

    constructor (clearing: set<Bit>)
      ensures State() == START && queued == [] && this.clearing == clearing && timeouts == 0
    {
      this.clearing := clearing;
      txIndex, hwordIndex, rxIndex, txPtr, rxPtr, txCount, queued, arrived, timeouts := 0, 0, 0, 0, 0, 0, [], [], 0;
    }

    /** `UART_WAIT` on a FIFO predicate: `gone` bytes leave meanwhile. */
    method Wait(width: nat) returns (timeout: bool, ghost gone: nat)
      modifies this`txCount, this`timeouts
      ensures gone <= old(txCount) && txCount == old(txCount) - gone
      ensures !timeout ==> !Full(width, txCount)
      ensures timeouts == old(timeouts) + if timeout then 1 else 0
    {
      var n: nat :| n <= txCount;
      txCount, gone, timeout := txCount - n, n, *;
      if Full(width, txCount) {
        timeout := true;
      }
      if timeout {
        timeouts := timeouts + 1;
      }
    }

    /** A store to the data register: at the pointer it appends `bytes`, anywhere else the device queues something of
        that size. */
    method Store(lane: nat, bytes: seq<byte>)
      modifies this`txPtr, this`txCount, this`queued
      ensures State() == Stored(old(State()), |bytes|)
      ensures lane == old(txPtr) ==> queued == old(queued) + bytes
    {
      txPtr, txCount := (txPtr + |bytes|) % 4, txCount + |bytes|;
      if lane == old(txPtr) {
        queued := queued + bytes;
      } else {
        queued := *;
      }
    }

    /** `uart_send_byte` */
    method SendByte(b: byte) returns (status: Status, ghost gone: nat)
      modifies this`txIndex, this`txPtr, this`txCount, this`queued, this`timeouts
      ensures gone <= old(txCount) && Enabled(Step(old(State()), Elapse(gone), clearing), Op.SendByte(status))
      ensures State() == Step(Step(old(State()), Elapse(gone), clearing), Op.SendByte(status), clearing)
      ensures status == Success && old(txIndex) == old(txPtr) ==> queued == old(queued) + [b]
      ensures status == Timeout ==> queued == old(queued)
      ensures timeouts == old(timeouts) + if status == Timeout then 1 else 0
    {
      var timeout;
      timeout, gone := Wait(1);
      if timeout {
        return Timeout, gone;
      }
      Store(txIndex, [b]);
      txIndex := (txIndex + 1) % 4;
      status := Success;
    }

    /** `uart_send_hword`, low byte first */
    method SendHword(data: nat) returns (status: Status, ghost gone: nat)
      requires data < 0x1_0000
      modifies this`hwordIndex, this`txPtr, this`txCount, this`queued, this`timeouts
      ensures gone <= old(txCount) && Enabled(Step(old(State()), Elapse(gone), clearing), Op.SendHword(status))
      ensures State() == Step(Step(old(State()), Elapse(gone), clearing), Op.SendHword(status), clearing)
      ensures status == Success && 2 * old(hwordIndex) == old(txPtr) ==> queued == old(queued) + [data % 0x100, data / 0x100]
      ensures status == Timeout ==> queued == old(queued)
      ensures timeouts == old(timeouts) + if status == Timeout then 1 else 0
    {
      var timeout;
      timeout, gone := Wait(2);
      if timeout {
        return Timeout, gone;
      }
      Store(2 * hwordIndex, [data % 0x100, data / 0x100]);
      hwordIndex := (hwordIndex + 1) % 2;
      status := Success;
    }

    /** `uart_send_word`; the data are the four bytes in the order sent */
    method SendWord(data: seq<byte>) returns (status: Status, ghost gone: nat)
      requires |data| == 4
      modifies this`txPtr, this`txCount, this`queued, this`timeouts
      ensures gone <= old(txCount) && Enabled(Step(old(State()), Elapse(gone), clearing), Op.SendWord(status))
      ensures State() == Step(Step(old(State()), Elapse(gone), clearing), Op.SendWord(status), clearing)
      ensures status == Success && old(txPtr) == 0 ==> queued == old(queued) + data
      ensures status == Timeout ==> queued == old(queued)
      ensures timeouts == old(timeouts) + if status == Timeout then 1 else 0
    {
      var timeout;
      timeout, gone := Wait(4);
      if timeout {
        return Timeout, gone;
      }
      Store(0, data);
      status := Success;
    }

    /** `uart_read_byte`; only the lane under the pointer shows the oldest byte */
    method ReadByte() returns (b: byte)
      modifies this`rxIndex, this`rxPtr, this`arrived
      ensures State() == Step(old(State()), Op.ReadByte, clearing)
      ensures old(RxInStep(State()) && arrived != []) ==> [b] + arrived == old(arrived)
    {
      if rxIndex == rxPtr && arrived != [] {
        b, arrived := arrived[0], arrived[1..];
      } else {
        b, arrived := *, *;
      }
      rxPtr := (rxPtr + 1) % 4;
      rxIndex := (rxIndex + 1) % 4;
    }

    method WriteStatus(bits: set<Bit>)
      modifies this`rxPtr, this`arrived
      ensures State() == Written(old(State()), bits, clearing)
      ensures arrived == if bits !! clearing then old(arrived) else []
    {
      if !(bits !! clearing) {
        rxPtr, arrived := 0, [];
      }
    }

    /** `uart_clr_irq_status` */
    method ClrIrqStatus(bits: set<Bit>)
      modifies this`rxIndex, this`rxPtr, this`arrived
      ensures State() == Step(old(State()), ClearIrq(bits), clearing)
      ensures arrived == if bits !! clearing && (bits != {RxDone} || RxBuf !in clearing) then old(arrived) else []
    {
      if bits == {RxDone} {
        WriteStatus({RxBuf});
        ClrRxIndex();
      }
      if bits == {RxBuf} {
        ClrRxIndex();
      }
      WriteStatus(bits);
    }

    /** `uart_clr_rx_index` */
    method ClrRxIndex()
      modifies this`rxIndex
      ensures State() == Step(old(State()), ClearRxIndex, clearing)
    {
      rxIndex := 0;
    }

    /** `uart_clr_tx_index` */
    method ClrTxIndex()
      modifies this`txIndex
      ensures State() == Step(old(State()), ClearTxIndex, clearing)
    {
      txIndex := 0;
    }

    /** `uart_hw_fsm_reset` */
    method HwFsmReset()
      modifies this`txIndex, this`rxIndex, this`txPtr, this`rxPtr, this`txCount, this`arrived
      ensures State() == Step(old(State()), FsmReset, clearing) && arrived == []
    {
      txPtr, rxPtr, txCount, arrived := 0, 0, 0, [];
      ClrTxIndex();
      ClrRxIndex();
    }
  }
}
