/** SPI transfers through the transmit and receive FIFOs (spi.c). */
module SpiTransport {
  import opened Word32

  type byte = x: int | 0 <= x < 0x100

  const FIFO_DEPTH: nat := 20

  datatype Status = Success | Timeout

  datatype TransMode = WriteOnly | ReadOnly | WriteAndRead

  datatype Account = Account(outgoing: int, offered: int)

  // ------------------------- what the waits wait for

  datatype Condition = TxfifoNumIsWord | TxfifoIsFull | RxfifoNumIsWord | RxfifoIsEmpty | IsBusy

  /** The polled predicates; each is true while the caller has to wait. */
  predicate Holds(c: Condition, txEntries: nat, rxEntries: nat, remaining: nat)
  {
    match c
    case TxfifoNumIsWord => FIFO_DEPTH - txEntries < 4
    case TxfifoIsFull => txEntries >= FIFO_DEPTH
    case RxfifoNumIsWord => rxEntries < 4
    case RxfifoIsEmpty => rxEntries == 0
    case IsBusy => remaining > 0
  }

  /** Bytes one access moves. */
  function Width(c: Condition): nat
  {
    if c == TxfifoNumIsWord || c == RxfifoNumIsWord then 4 else 1
  }

  /** A write waits exactly while its bytes do not fit, and a read exactly while they are not there. */
  lemma HoldsExactly(c: Condition, txEntries: nat, rxEntries: nat, remaining: nat)
    ensures c.TxfifoNumIsWord? || c.TxfifoIsFull? ==>
              (Holds(c, txEntries, rxEntries, remaining) <==> txEntries + Width(c) > FIFO_DEPTH)
    ensures c.RxfifoNumIsWord? || c.RxfifoIsEmpty? ==> (Holds(c, txEntries, rxEntries, remaining) <==> rxEntries < Width(c))
    ensures c.IsBusy? ==> (Holds(c, txEntries, rxEntries, remaining) <==> remaining != 0)
  {
  }

  function Repeat(data: seq<byte>, n: nat): (r: seq<byte>)
    ensures |r| == n * |data|
  {
    if n == 0 then [] else Repeat(data, n - 1) + data
  }

  function Max(x: nat, y: nat): nat
  {
    if x > y then x else y
  }

  lemma NextRepeat(out0: seq<byte>, out1: seq<byte>, out2: seq<byte>, data: seq<byte>, i: nat)
    requires out1 == out0 + Repeat(data, i) && out2 == out1 + data
    ensures out2 == out0 + Repeat(data, i + 1)
  {
  }

  lemma SlicesMeet(s: seq<byte>, a: nat, b: nat, c: nat)
    requires a <= b <= c <= |s|
    ensures s[a..c] == s[a..b] + s[b..c]
  {
  }

  /** The `n` bytes at `data[from..]` follow `out0`. */
  ghost predicate Follows(out0: seq<byte>, data: seq<byte>, from: nat, n: nat, out1: seq<byte>)
  {
    from + n <= |data| && out1 == out0 + data[from..from + n]
  }

  lemma FollowsNothing(out: seq<byte>, data: seq<byte>, from: nat)
    requires from <= |data|
    ensures Follows(out, data, from, 0, out)
  {
  }

  lemma FollowsMore(out0: seq<byte>, out1: seq<byte>, out2: seq<byte>, data: seq<byte>, from: nat, n: nat, k: nat)
    requires Follows(out0, data, from, n, out1) && Follows(out1, data, from + n, k, out2)
    ensures Follows(out0, data, from, n + k, out2)
  {
    SlicesMeet(data, from, from + n, from + n + k);
  }

  /** The next `n` bytes of the stream `in0` have been put at `data[from..]`; the rest of the stream is `in1`. */
  ghost predicate Received(data0: seq<byte>, data1: seq<byte>, from: nat, n: nat, in0: seq<byte>, in1: seq<byte>)
  {
    && |data1| == |data0| && from + n <= |data0| && |in0| == n + |in1|
    && (forall j {:trigger data1[j]} :: 0 <= j < |data1| ==>
          data1[j] == if from <= j < from + n then in0[j - from] else data0[j])
    && (forall k {:trigger in1[k]} :: 0 <= k < |in1| ==> in1[k] == in0[n + k])
  }

  lemma ReceivedMore(data0: seq<byte>, data1: seq<byte>, data2: seq<byte>, from: nat, n: nat, k: nat,
                     in0: seq<byte>, in1: seq<byte>, in2: seq<byte>)
    requires Received(data0, data1, from, n, in0, in1) && Received(data1, data2, from + n, k, in1, in2)
    ensures Received(data0, data2, from, n + k, in0, in2)
  {
  }

  // ------------------------- the byte counter

  /** How many bytes the module transfers for a requested count: 24 bits hold one less than it (`spi_tx_cnt`, `spi_rx_cnt`). */
  function Count(cnt: int): (n: nat)
    ensures 1 <= n <= 0x100_0000
  {
    (cnt - 1) % 0x100_0000 + 1
  }

  /** It is the requested count exactly from 1 to 2^24; a larger request is cut by a multiple of 2^24. */
  lemma CountExactly(cnt: nat)
    ensures Count(cnt) == cnt <==> 1 <= cnt <= 0x100_0000
    ensures cnt > 0x100_0000 ==> Count(cnt) + 0x100_0000 <= cnt
    ensures cnt == 0 ==> Count(cnt) == 0x100_0000
  {
  }

  lemma CountOfWrapped(cnt: nat)
    ensures Count(Wrap(cnt)) == Count(cnt)
  {
    var q, r := cnt / TWO_TO_THE_32, Wrap(cnt);
    assert cnt - 1 == 0x100_0000 * (0x100 * q) + (r - 1);
  }

  // ------------------------- the chunks of a full-duplex transfer

  /** How many bytes are read back after the chunk at `i`. */
  function ReadLength(len: nat, i: nat, chunk: nat): int
  {
    if len < 8 then chunk
    else if i == 0 then chunk - 1
    else if len - i > 8 then chunk
    else chunk + 1
  }

  function ChunkSize(len: nat, i: nat): nat
    requires i <= len
  {
    if 8 > len - i then len - i else 8
  }

  /** How many bytes have been read back before the chunk at `i`. */
  function ReadBefore(len: nat, i: nat): nat
  {
    if i == 0 then 0
    else if i < len then i - 1
    else if len == 8 then 7 else len
  }

  /** The reads follow each other without gap or overlap, never get ahead of the writes, and lag by one byte until the
      end; only a transfer of exactly 8 bytes ends with its last byte unread. */
  lemma DuplexChunk(len: nat, i: nat)
    requires i < len && i % 8 == 0
    ensures var chunk := ChunkSize(len, i);
            var next := i + chunk;
            && 0 < chunk <= 8 && next <= len && (next < len ==> next % 8 == 0)
            && ReadLength(len, i, chunk) >= 0
            && ReadBefore(len, i) + ReadLength(len, i, chunk) == ReadBefore(len, next) <= next
            && (next < len ==> ReadBefore(len, next) == next - 1)
            && (next == len ==> (ReadBefore(len, next) == len <==> len != 8))
            && next - ReadBefore(len, i) <= 9
  {
  }

  /** One round's reads continue those of the rounds before. */
  lemma DuplexReceived(data0: seq<byte>, data1: seq<byte>, data2: seq<byte>, len: nat, i: nat, chunk: nat,
                       in0: seq<byte>, in1: seq<byte>, in2: seq<byte>)
    requires i < len && i % 8 == 0 && chunk == ChunkSize(len, i) && ReadLength(len, i, chunk) >= 0
    requires Received(data0, data1, 0, ReadBefore(len, i), in0, in1)
    requires Received(data1, data2, ReadBefore(len, i), ReadLength(len, i, chunk), in1, in2)
    ensures Received(data0, data2, 0, ReadBefore(len, i + chunk), in0, in2)
  {
    DuplexChunk(len, i);
    ReceivedMore(data0, data1, data2, 0, ReadBefore(len, i), ReadLength(len, i, chunk), in0, in1, in2);
  }

  // ------------------------- the module

  class Gspi {
    var mode: TransMode
    var tx: seq<byte>
    var rx: seq<byte>
    /** Bytes still to be transferred. */
    var remaining: nat
    /** What has gone out on the wire, and what the other side will still deliver. */
    var sent: seq<byte>
    var incoming: seq<byte>
    /** The largest number of bytes the two FIFOs have held since they were cleared. */
    ghost var peak: nat
    /** How many waits have timed out. */
    ghost var timeouts: nat

    ghost predicate Valid()
      reads this
    {
      |tx| <= FIFO_DEPTH && |rx| <= FIFO_DEPTH && |tx| + |rx| <= peak
    }

    /** What was sent or is about to be, and what was received or will be: the two streams no wait may disturb. */
    ghost function Out(): seq<byte>
      reads this
    {
      sent + tx
    }

    ghost function In(): seq<byte>
      reads this
    {
      rx + incoming
    }

    /** What no passing of time changes in a mode: bytes sent and to be sent, bytes on offer and not to be taken. */
    ghost function Ledger(): Account
      reads this
    {
      Account(if mode.ReadOnly? then 0 else |sent| + remaining, if mode.WriteOnly? then 0 else |incoming| - remaining)
    }

    constructor (incoming: seq<byte>)
      ensures Valid() && tx == rx == sent == [] && this.incoming == incoming && timeouts == 0
    {
      mode, tx, rx, remaining, timeouts := WriteOnly, [], [], 0, 0;
      sent, this.incoming, peak := [], incoming, 0;
    }

    /** One byte time, if the transfer can go on: in full duplex a byte goes out as a byte comes in. */
    method ShiftByte()
      requires Valid()
      modifies this`tx, this`rx, this`remaining, this`sent, this`incoming, this`peak
      ensures Valid() && Out() == old(Out()) && In() == old(In()) && old(sent) <= sent
      ensures Ledger() == old(Ledger()) && (!mode.ReadOnly? ==> peak == old(peak))
      ensures mode.WriteAndRead? ==> |tx| + |rx| == old(|tx| + |rx|)
      ensures mode.WriteOnly? ==> rx == old(rx) && incoming == old(incoming)
      ensures mode.ReadOnly? ==> tx == old(tx) && sent == old(sent)
    {
      if remaining > 0 {
        match mode
        case WriteOnly =>
          if tx != [] {
            assert sent + tx == sent + [tx[0]] + tx[1..];
            sent, tx, remaining := sent + [tx[0]], tx[1..], remaining - 1;
          }
        case ReadOnly =>
          if |rx| < FIFO_DEPTH && incoming != [] {
            assert rx + incoming == rx + [incoming[0]] + incoming[1..];
            rx, incoming, remaining := rx + [incoming[0]], incoming[1..], remaining - 1;
            peak := Max(peak, |tx| + |rx|);
          }
        case WriteAndRead =>
          if tx != [] && |rx| < FIFO_DEPTH && incoming != [] {
            assert sent + tx == sent + [tx[0]] + tx[1..];
            assert rx + incoming == rx + [incoming[0]] + incoming[1..];
            sent, tx := sent + [tx[0]], tx[1..];
            rx, incoming, remaining := rx + [incoming[0]], incoming[1..], remaining - 1;
          }
      }
    }

    /** Any time passes between two accesses. */
    method Elapse()
      requires Valid()
      modifies this`tx, this`rx, this`remaining, this`sent, this`incoming, this`peak
      ensures Valid() && Out() == old(Out()) && In() == old(In()) && old(sent) <= sent
      ensures Ledger() == old(Ledger()) && (!mode.ReadOnly? ==> peak == old(peak))
      ensures mode.WriteAndRead? ==> |tx| + |rx| == old(|tx| + |rx|)
      ensures mode.WriteOnly? ==> rx == old(rx) && incoming == old(incoming)
      ensures mode.ReadOnly? ==> tx == old(tx) && sent == old(sent)
    {
      var n: nat :| true;
      for i := 0 to n
        invariant Valid() && Out() == old(Out()) && In() == old(In()) && old(sent) <= sent
        invariant Ledger() == old(Ledger()) && (!mode.ReadOnly? ==> peak == old(peak))
        invariant mode.WriteAndRead? ==> |tx| + |rx| == old(|tx| + |rx|)
        invariant mode.WriteOnly? ==> rx == old(rx) && incoming == old(incoming)
        invariant mode.ReadOnly? ==> tx == old(tx) && sent == old(sent)
      {
        ShiftByte();
      }
    }

    /**
     * A wait, and whatever time has passed before it: the wire may have moved on by any number of bytes, and moves on
     * for as long as the condition holds or until the timeout.
     */
    method WaitWhile(c: Condition) returns (timeout: bool)
      requires Valid()
      modifies this`tx, this`rx, this`remaining, this`sent, this`incoming, this`peak, this`timeouts
      ensures Valid() && Out() == old(Out()) && In() == old(In()) && old(sent) <= sent
      ensures Ledger() == old(Ledger()) && (!mode.ReadOnly? ==> peak == old(peak))
      ensures mode.WriteAndRead? ==> |tx| + |rx| == old(|tx| + |rx|)
      ensures mode.WriteOnly? ==> rx == old(rx) && incoming == old(incoming)
      ensures mode.ReadOnly? ==> tx == old(tx) && sent == old(sent)
      ensures !timeout ==> !Holds(c, |tx|, |rx|, remaining)
      ensures timeouts == old(timeouts) + if timeout then 1 else 0
    {
      Elapse();
      var budget: nat := *;
      timeout := false;
      while Holds(c, |tx|, |rx|, remaining)
        invariant Valid() && Out() == old(Out()) && In() == old(In()) && old(sent) <= sent
        invariant Ledger() == old(Ledger()) && (!mode.ReadOnly? ==> peak == old(peak))
        invariant mode.WriteAndRead? ==> |tx| + |rx| == old(|tx| + |rx|)
        invariant mode.WriteOnly? ==> rx == old(rx) && incoming == old(incoming)
        invariant mode.ReadOnly? ==> tx == old(tx) && sent == old(sent)
        invariant !timeout && timeouts == old(timeouts)
        decreases budget
      {
        if budget == 0 {
          timeouts := timeouts + 1;
          return true;
        }
        ShiftByte();
        budget := budget - 1;
      }
    }

    /** Bytes enter the transmit FIFO; the code has checked that they fit. */
    method Push(bytes: seq<byte>)
      requires Valid() && |tx| + |bytes| <= FIFO_DEPTH
      modifies this`tx, this`peak
      ensures Valid() && tx == old(tx) + bytes && Out() == old(Out()) + bytes
      ensures peak == Max(old(peak), |tx| + |rx|)
    {
      assert sent + (tx + bytes) == sent + tx + bytes;
      tx := tx + bytes;
      if |tx| + |rx| > peak {
        peak := |tx| + |rx|;
      }
    }

    /** Bytes leave the receive FIFO; the code has checked that they are there. */
    method Pop(n: nat) returns (bytes: seq<byte>)
      requires Valid() && n <= |rx|
      modifies this`rx
      ensures Valid() && bytes == old(rx)[..n] && rx == old(rx)[n..] && old(In()) == bytes + In()
    {
      bytes := rx[..n];
      assert rx + incoming == bytes + (rx[n..] + incoming);
      rx := rx[n..];
    }

    /** One wait and one store to the data register, of a word or of a byte. */
    method WriteUnit(c: Condition, data: array<byte>, at: nat, n: nat) returns (timeout: bool)
      requires Valid() && at + n <= data.Length
      requires (c.TxfifoNumIsWord? && n == 4) || (c.TxfifoIsFull? && n == 1)
      modifies this`tx, this`rx, this`remaining, this`sent, this`incoming, this`peak, this`timeouts
      ensures Valid() && Follows(old(Out()), data[..], at, if timeout then 0 else n, Out())
      ensures In() == old(In()) && old(sent) <= sent
      ensures Ledger() == old(Ledger())
      ensures mode.WriteAndRead? ==> |tx| + |rx| == old(|tx| + |rx|) + (if timeout then 0 else n)
      ensures mode.WriteAndRead? ==> peak == Max(old(peak), |tx| + |rx|)
      ensures timeouts == old(timeouts) + if timeout then 1 else 0
    {
      timeout := WaitWhile(c);
      if !timeout {
        Push(data[at..at + n]);
      }
    }

    /** One more unit of a write that has `done` bytes already. */
    method WriteNext(c: Condition, data: array<byte>, from: nat, ghost out0: seq<byte>, done: nat, n: nat)
      returns (timeout: bool)
      requires Valid() && from + done + n <= data.Length && Follows(out0, data[..], from, done, Out())
      requires (c.TxfifoNumIsWord? && n == 4) || (c.TxfifoIsFull? && n == 1)
      modifies this`tx, this`rx, this`remaining, this`sent, this`incoming, this`peak, this`timeouts
      ensures Valid() && Follows(out0, data[..], from, if timeout then done else done + n, Out())
      ensures In() == old(In()) && old(sent) <= sent
      ensures Ledger() == old(Ledger())
      ensures mode.WriteAndRead? ==> |tx| + |rx| == old(|tx| + |rx|) + (if timeout then 0 else n)
      ensures mode.WriteAndRead? ==> peak == Max(old(peak), |tx| + |rx|)
      ensures timeouts == old(timeouts) + if timeout then 1 else 0
    {
      ghost var out1 := Out();
      timeout := WriteUnit(c, data, from + done, n);
      if !timeout {
        FollowsMore(out0, out1, Out(), data[..], from, done, n);
      }
    }

    /** The word loop of `spi_write`. */
    method WriteWords(data: array<byte>, from: nat, count: nat) returns (timeout: bool, ghost done: nat)
      requires Valid() && from + 4 * count <= data.Length
      modifies this`tx, this`rx, this`remaining, this`sent, this`incoming, this`peak, this`timeouts
      ensures Valid() && done <= 4 * count && (!timeout ==> done == 4 * count)
      ensures Follows(old(Out()), data[..], from, done, Out()) && In() == old(In()) && old(sent) <= sent
      ensures Ledger() == old(Ledger())
      ensures mode.WriteAndRead? ==> |tx| + |rx| == old(|tx| + |rx|) + done && peak == Max(old(peak), |tx| + |rx|)
      ensures timeouts == old(timeouts) + if timeout then 1 else 0
    {
      done, timeout := 0, false;
      ghost var out0, in0 := Out(), In();
      FollowsNothing(out0, data[..], from);
      for i := 0 to count
        invariant Valid() && done == 4 * i
        invariant Follows(out0, data[..], from, done, Out()) && In() == in0 && old(sent) <= sent
        invariant Ledger() == old(Ledger())
        invariant mode.WriteAndRead? ==> |tx| + |rx| == old(|tx| + |rx|) + done && peak == Max(old(peak), |tx| + |rx|)
        invariant timeouts == old(timeouts)
      {
        timeout := WriteNext(TxfifoNumIsWord, data, from, out0, 4 * i, 4);
        if timeout {
          return;
        }
        done := done + 4;
      }
    }

    /** The byte loop of `spi_write`. */
    method WriteBytes(data: array<byte>, from: nat, count: nat) returns (timeout: bool, ghost done: nat)
      requires Valid() && from + count <= data.Length
      modifies this`tx, this`rx, this`remaining, this`sent, this`incoming, this`peak, this`timeouts
      ensures Valid() && done <= count && (!timeout ==> done == count)
      ensures Follows(old(Out()), data[..], from, done, Out()) && In() == old(In()) && old(sent) <= sent
      ensures Ledger() == old(Ledger())
      ensures mode.WriteAndRead? ==> |tx| + |rx| == old(|tx| + |rx|) + done && peak == Max(old(peak), |tx| + |rx|)
      ensures timeouts == old(timeouts) + if timeout then 1 else 0
    {
      done, timeout := 0, false;
      ghost var out0, in0 := Out(), In();
      FollowsNothing(out0, data[..], from);
      for i := 0 to count
        invariant Valid() && done == i
        invariant Follows(out0, data[..], from, done, Out()) && In() == in0 && old(sent) <= sent
        invariant Ledger() == old(Ledger())
        invariant mode.WriteAndRead? ==> |tx| + |rx| == old(|tx| + |rx|) + done && peak == Max(old(peak), |tx| + |rx|)
        invariant timeouts == old(timeouts)
      {
        timeout := WriteNext(TxfifoIsFull, data, from, out0, i, 1);
        if timeout {
          return;
        }
        done := done + 1;
      }
    }

    /** `spi_write`: on success all of `data[from..from + len]` follows what was written before; on a timeout a prefix.
        */
    method Write(data: array<byte>, from: nat, len: nat) returns (status: Status, ghost done: nat)
      requires Valid() && from + len <= data.Length
      modifies this`tx, this`rx, this`remaining, this`sent, this`incoming, this`peak, this`timeouts
      ensures Valid() && done <= len && (status.Success? ==> done == len)
      ensures Follows(old(Out()), data[..], from, done, Out()) && In() == old(In()) && old(sent) <= sent
      ensures Ledger() == old(Ledger())
      ensures mode.WriteAndRead? ==> |tx| + |rx| == old(|tx| + |rx|) + done && peak == Max(old(peak), |tx| + |rx|)
      ensures timeouts == old(timeouts) + if status.Timeout? then 1 else 0
    {
      var wordLen, singleLen := len / 4, len % 4;
      var timeout;
      timeout, done := WriteWords(data, from, wordLen);
      if timeout {
        return Timeout, done;
      }
      ghost var more, out1 := 0, Out();
      timeout, more := WriteBytes(data, from + 4 * wordLen, singleLen);
      FollowsMore(old(Out()), out1, Out(), data[..], from, done, more);
      done := done + more;
      status := if timeout then Timeout else Success;
    }

    /** One wait and one load from the data register, of a word or of a byte. */
    method ReadUnit(c: Condition, data: array<byte>, at: nat, n: nat) returns (timeout: bool)
      requires Valid() && at + n <= data.Length
      requires (c.RxfifoNumIsWord? && n == 4) || (c.RxfifoIsEmpty? && n == 1)
      modifies this`tx, this`rx, this`remaining, this`sent, this`incoming, this`peak, this`timeouts, data
      ensures Valid() && Received(old(data[..]), data[..], at, if timeout then 0 else n, old(In()), In())
      ensures Out() == old(Out()) && |old(sent)| <= |sent| && Ledger() == old(Ledger())
      ensures mode.WriteAndRead? ==> |tx| + |rx| + (if timeout then 0 else n) == old(|tx| + |rx|) && peak == old(peak)
      ensures timeouts == old(timeouts) + if timeout then 1 else 0
    {
      timeout := WaitWhile(c);
      if !timeout {
        var bytes := Pop(n);
        for k := 0 to n
          modifies data
          invariant forall j :: 0 <= j < data.Length ==>
                      data[j] == if at <= j < at + k then bytes[j - at] else old(data[j])
        {
          data[at + k] := bytes[k];
        }
      }
    }

    /** One more unit of a read that has `done` bytes already. */
    method ReadNext(c: Condition, data: array<byte>, from: nat, ghost data0: seq<byte>, ghost in0: seq<byte>, done: nat, n: nat)
      returns (timeout: bool)
      requires Valid() && from + done + n <= data.Length && Received(data0, data[..], from, done, in0, In())
      requires (c.RxfifoNumIsWord? && n == 4) || (c.RxfifoIsEmpty? && n == 1)
      modifies this`tx, this`rx, this`remaining, this`sent, this`incoming, this`peak, this`timeouts, data
      ensures Valid() && Received(data0, data[..], from, if timeout then done else done + n, in0, In())
      ensures Out() == old(Out()) && |old(sent)| <= |sent| && Ledger() == old(Ledger())
      ensures mode.WriteAndRead? ==> |tx| + |rx| + (if timeout then 0 else n) == old(|tx| + |rx|) && peak == old(peak)
      ensures timeouts == old(timeouts) + if timeout then 1 else 0
    {
      ghost var data1, in1 := data[..], In();
      timeout := ReadUnit(c, data, from + done, n);
      ReceivedMore(data0, data1, data[..], from, done, if timeout then 0 else n, in0, in1, In());
    }

    /** The word loop of `spi_read`. */
    method ReadWords(data: array<byte>, from: nat, count: nat) returns (timeout: bool, ghost done: nat)
      requires Valid() && from + 4 * count <= data.Length
      modifies this`tx, this`rx, this`remaining, this`sent, this`incoming, this`peak, this`timeouts, data
      ensures Valid() && done <= 4 * count && (!timeout ==> done == 4 * count)
      ensures Received(old(data[..]), data[..], from, done, old(In()), In())
      ensures Out() == old(Out()) && |old(sent)| <= |sent| && Ledger() == old(Ledger())
      ensures mode.WriteAndRead? ==> |tx| + |rx| + done == old(|tx| + |rx|) && peak == old(peak)
      ensures timeouts == old(timeouts) + if timeout then 1 else 0
    {
      done, timeout := 0, false;
      ghost var data0, in0, out0 := data[..], In(), Out();
      for i := 0 to count
        invariant Valid() && done == 4 * i
        invariant Received(data0, data[..], from, done, in0, In())
        invariant Out() == out0 && |old(sent)| <= |sent| && Ledger() == old(Ledger())
        invariant mode.WriteAndRead? ==> |tx| + |rx| + done == old(|tx| + |rx|) && peak == old(peak)
        invariant timeouts == old(timeouts)
      {
        timeout := ReadNext(RxfifoNumIsWord, data, from, data0, in0, 4 * i, 4);
        if timeout {
          return;
        }
        done := done + 4;
      }
    }

    /** The byte loop of `spi_read`. */
    method ReadBytes(data: array<byte>, from: nat, count: nat) returns (timeout: bool, ghost done: nat)
      requires Valid() && from + count <= data.Length
      modifies this`tx, this`rx, this`remaining, this`sent, this`incoming, this`peak, this`timeouts, data
      ensures Valid() && done <= count && (!timeout ==> done == count)
      ensures Received(old(data[..]), data[..], from, done, old(In()), In())
      ensures Out() == old(Out()) && |old(sent)| <= |sent| && Ledger() == old(Ledger())
      ensures mode.WriteAndRead? ==> |tx| + |rx| + done == old(|tx| + |rx|) && peak == old(peak)
      ensures timeouts == old(timeouts) + if timeout then 1 else 0
    {
      done, timeout := 0, false;
      ghost var data0, in0, out0 := data[..], In(), Out();
      for i := 0 to count
        invariant Valid() && done == i
        invariant Received(data0, data[..], from, done, in0, In())
        invariant Out() == out0 && |old(sent)| <= |sent| && Ledger() == old(Ledger())
        invariant mode.WriteAndRead? ==> |tx| + |rx| + done == old(|tx| + |rx|) && peak == old(peak)
        invariant timeouts == old(timeouts)
      {
        timeout := ReadNext(RxfifoIsEmpty, data, from, data0, in0, i, 1);
        if timeout {
          return;
        }
        done := done + 1;
      }
    }

    /** The two loops of `spi_read`. */
    method ReadParts(data: array<byte>, from: nat, wordLen: nat, singleLen: nat) returns (status: Status, ghost done: nat)
      requires Valid() && from + 4 * wordLen + singleLen <= data.Length
      modifies this`tx, this`rx, this`remaining, this`sent, this`incoming, this`peak, this`timeouts, data
      ensures Valid() && done <= 4 * wordLen + singleLen && (status.Success? ==> done == 4 * wordLen + singleLen)
      ensures Received(old(data[..]), data[..], from, done, old(In()), In())
      ensures Out() == old(Out()) && |old(sent)| <= |sent| && Ledger() == old(Ledger())
      ensures mode.WriteAndRead? ==> |tx| + |rx| + done == old(|tx| + |rx|) && peak == old(peak)
      ensures timeouts == old(timeouts) + if status.Timeout? then 1 else 0
    {
      ghost var data0, in0 := data[..], In();
      var timeout;
      timeout, done := ReadWords(data, from, wordLen);
      if timeout {
        return Timeout, done;
      }
      ghost var data1, in1 := data[..], In();
      ghost var more;
      timeout, more := ReadBytes(data, from + 4 * wordLen, singleLen);
      ReceivedMore(data0, data1, data[..], from, done, more, in0, in1, In());
      done := done + more;
      status := if timeout then Timeout else Success;
    }

    /** `spi_read`: on success the next `len` bytes of the incoming stream are in the buffer; on a timeout a prefix. */
    method Read(data: array<byte>, from: nat, len: nat) returns (status: Status, ghost done: nat)
      requires Valid() && from + len <= data.Length
      modifies this`tx, this`rx, this`remaining, this`sent, this`incoming, this`peak, this`timeouts, data
      ensures Valid() && done <= len && (status.Success? ==> done == len)
      ensures Received(old(data[..]), data[..], from, done, old(In()), In())
      ensures Out() == old(Out()) && |old(sent)| <= |sent| && Ledger() == old(Ledger())
      ensures mode.WriteAndRead? ==> |tx| + |rx| + done == old(|tx| + |rx|) && peak == old(peak)
      ensures timeouts == old(timeouts) + if status.Timeout? then 1 else 0
    {
      var wordLen, singleLen := len / 4, len % 4;
      status, done := ReadParts(data, from, wordLen, singleLen);
    }

    /** The set-up every transfer begins with: the FIFOs its mode uses emptied, the count loaded, the mode chosen. */
    method Start(mode: TransMode, cnt: nat)
      requires Valid()
      modifies this`mode, this`tx, this`rx, this`remaining, this`peak
      ensures Valid() && this.mode == mode && remaining == Count(cnt) && peak == |tx| + |rx|
      ensures tx == if mode == ReadOnly then old(tx) else []
      ensures rx == if mode == WriteOnly then old(rx) else []
    {
      this.mode, remaining := mode, Count(cnt);
      if mode != ReadOnly {
        tx := [];
      }
      if mode != WriteOnly {
        rx := [];
      }
      peak := |tx| + |rx|;
    }

    /**
     * `spi_master_write`: the status of `spi_write`, here `early`, is not looked at, but the module stays busy until the bytes it counted
     * are out. So success means that those were sent: all of the data from 1 to 2^24 bytes, and never all of it above.
     */
    method MasterWrite(data: array<byte>, len: nat) returns (status: Status, ghost early: Status)
      requires Valid() && len <= data.Length
      modifies this`mode, this`tx, this`rx, this`remaining, this`sent, this`incoming, this`peak, this`timeouts
      ensures Valid() && mode == WriteOnly && exists k :: 0 <= k <= len && sent == old(sent) + data[..k]
      ensures |sent| + remaining == |old(sent)| + Count(len)
      ensures early.Success? ==> Out() == old(sent) + data[..len]
      ensures timeouts == old(timeouts) + (if early.Timeout? then 1 else 0) + if status.Timeout? then 1 else 0
      ensures status.Success? ==> Count(len) <= len && sent == old(sent) + data[..Count(len)]
      ensures status.Success? && len <= 0x100_0000 ==> sent == old(sent) + data[..len] && tx == []
    {
      CountExactly(len);
      Start(WriteOnly, len);
      var ignored;
      ghost var done;
      ignored, done := Write(data, 0, len);
      early := ignored;
      var timeout := WaitWhile(IsBusy);
      ghost var k := |sent| - |old(sent)|;
      assert sent + tx == old(sent) + data[0..done];
      assert sent == (sent + tx)[..|sent|];
      assert sent == old(sent) + data[..k];
      status := if timeout then Timeout else Success;
    }

    /** The nested loops of `spi_master_write_repeat`. */
    method WriteTimes(data: array<byte>, len: nat, times: nat) returns (timeout: bool)
      requires Valid() && mode == WriteOnly && len <= data.Length
      modifies this`tx, this`rx, this`remaining, this`sent, this`incoming, this`peak, this`timeouts
      ensures Valid() && |sent| + remaining == old(|sent| + remaining)
      ensures timeouts == old(timeouts) + if timeout then 1 else 0
      ensures !timeout ==> Out() == old(Out()) + Repeat(data[..len], times)
    {
      timeout := false;
      for i := 0 to times
        invariant Valid() && |sent| + remaining == old(|sent| + remaining)
        invariant Out() == old(Out()) + Repeat(data[..len], i) && timeouts == old(timeouts)
      {
        ghost var out1, done := Out(), 0;
        timeout, done := WriteBytes(data, 0, len);
        if timeout {
          return;
        }
        assert data[0..len] == data[..len];
        NextRepeat(old(Out()), out1, Out(), data[..len], i);
      }
    }

    /**
     * `spi_master_write_repeat`: on success the data went out `times` times in a row. No count beyond the counter can
     * succeed, because then the FIFO fills up and the status of that wait is looked at.
     */
    method MasterWriteRepeat(data: array<byte>, len: nat, times: nat) returns (status: Status)
      requires Valid() && len <= data.Length
      modifies this`mode, this`tx, this`rx, this`remaining, this`sent, this`incoming, this`peak, this`timeouts
      ensures Valid() && (status.Success? ==> sent == old(sent) + Repeat(data[..len], times) && tx == [])
      ensures status.Success? ==> 1 <= len * times <= 0x100_0000
      ensures mode == WriteOnly && |sent| + remaining == |old(sent)| + Count(len * times)
      ensures timeouts == old(timeouts) + if status.Timeout? then 1 else 0
    {
      ghost var total := times * |data[..len]|;
      assert total == len * times;
      Start(WriteOnly, Wrap(len * times));
      CountOfWrapped(len * times);
      CountExactly(len * times);
      assert Out() == old(sent);
      var timeout := WriteTimes(data, len, times);
      if timeout {
        return Timeout;
      }
      ghost var out := Out();
      assert |out| == |old(sent)| + total;
      timeout := WaitWhile(IsBusy);
      if timeout {
        return Timeout;
      }
      assert |sent| == |old(sent)| + Count(total);
      assert |sent| + |tx| == |old(sent)| + total;
      status := Success;
    }

    /** The four cases in which a chunk is read back. */
    method ReadBack(readData: array<byte>, len: nat, i: nat, chunkSize: nat) returns (status: Status, ghost done: nat)
      requires Valid() && len <= readData.Length && i < len && i % 8 == 0 && chunkSize == ChunkSize(len, i)
      modifies this`tx, this`rx, this`remaining, this`sent, this`incoming, this`peak, this`timeouts, readData
      ensures Valid() && (status.Success? ==> done == ReadLength(len, i, chunkSize)) && done <= i + chunkSize - ReadBefore(len, i)
      ensures Received(old(readData[..]), readData[..], ReadBefore(len, i), done, old(In()), In())
      ensures Out() == old(Out()) && Ledger() == old(Ledger())
      ensures mode.WriteAndRead? ==> |tx| + |rx| + done == old(|tx| + |rx|) && peak == old(peak)
      ensures timeouts == old(timeouts) + if status.Timeout? then 1 else 0
    {
      DuplexChunk(len, i);
      if len < 8 {
        status, done := Read(readData, 0, chunkSize);
      } else if i == 0 {
        status, done := Read(readData, 0, chunkSize - 1);
      } else if len - i > 8 {
        status, done := Read(readData, i - 1, chunkSize);
      } else {
        status, done := Read(readData, i - 1, chunkSize + 1);
      }
    }

    /** One round: a chunk out, and what can be read back in. */
    method DuplexRound(writeData: array<byte>, readData: array<byte>, len: nat, i: nat, chunkSize: nat)
      returns (ghost clean: bool)
      requires Valid() && mode == WriteAndRead && len <= writeData.Length && len <= readData.Length
      requires i < len && i % 8 == 0 && chunkSize == ChunkSize(len, i)
      modifies this`tx, this`rx, this`remaining, this`sent, this`incoming, this`peak, this`timeouts, readData
      ensures Valid() && old(timeouts) <= timeouts && (clean <==> timeouts == old(timeouts))
      ensures Ledger() == old(Ledger())
      ensures forall j :: i + chunkSize <= j < readData.Length ==> readData[j] == old(readData[j])
      ensures clean ==> Follows(old(Out()), old(writeData[..]), i, chunkSize, Out())
      ensures clean ==> Received(old(readData[..]), readData[..], ReadBefore(len, i), ReadLength(len, i, chunkSize), old(In()), In())
      ensures clean ==> |tx| + |rx| == old(|tx| + |rx|) + chunkSize - ReadLength(len, i, chunkSize)
      ensures clean ==> peak == Max(old(peak), old(|tx| + |rx|) + chunkSize)
    {
      DuplexChunk(len, i);
      var status;
      ghost var written;
      status, written := Write(writeData, i, chunkSize);
      ghost var data1 := readData[..];
      var readStatus;
      ghost var done;
      readStatus, done := ReadBack(readData, len, i, chunkSize);
      clean := status.Success? && readStatus.Success?;
      forall j | i + chunkSize <= j < readData.Length
        ensures readData[j] == data1[j]
      {
        assert readData[..][j] == data1[j];
      }
    }

    /** The chunk loop of `spi_master_write_read_full_duplex`. */
    method DuplexLoop(writeData: array<byte>, readData: array<byte>, len: nat) returns (ghost clean: bool)
      requires Valid() && mode == WriteAndRead && tx == rx == [] && peak == 0
      requires len <= writeData.Length && len <= readData.Length
      modifies this`tx, this`rx, this`remaining, this`sent, this`incoming, this`peak, this`timeouts, readData
      ensures Valid() && old(timeouts) <= timeouts && (clean <==> timeouts == old(timeouts))
      ensures Ledger() == old(Ledger())
      ensures clean ==> peak <= 9 && Out() == old(Out()) + old(writeData[0..len])
      ensures clean ==> Received(old(readData[..]), readData[..], 0, ReadBefore(len, len), old(In()), In())
    {
      ghost var words, data0, in0, out0 := writeData[..], readData[..], In(), Out();
      var chunkSize: nat := 8;
      var i: nat := 0;
      clean := true;
      while i < len
        invariant i <= len && (i < len ==> chunkSize == 8 && i % 8 == 0)
        invariant Valid() && old(timeouts) <= timeouts && (clean <==> timeouts == old(timeouts))
        invariant Ledger() == old(Ledger())
        invariant forall j :: i <= j < len ==> writeData[j] == words[j]
        invariant clean ==> peak <= 9 && |tx| + |rx| == i - ReadBefore(len, i)
        invariant clean ==> Follows(out0, words, 0, i, Out())
        invariant clean ==> Received(data0, readData[..], 0, ReadBefore(len, i), in0, In())
      {
        if chunkSize > len - i {
          chunkSize := len - i;
        }
        DuplexChunk(len, i);
        assert writeData[i..i + chunkSize] == words[i..i + chunkSize];
        ghost var data1, in1, out1 := readData[..], In(), Out();
        ghost var roundClean := DuplexRound(writeData, readData, len, i, chunkSize);
        if clean && roundClean {
          DuplexReceived(data0, data1, readData[..], len, i, chunkSize, in0, in1, In());
          FollowsMore(out0, out1, Out(), words, 0, i, chunkSize);
        }
        clean := clean && roundClean;
        i := i + chunkSize;
      }
    }

    /** `spi_master_write_read_full_duplex`: when no wait timed out, every byte of the answer is in the buffer, except that
        a transfer of exactly 8 bytes leaves its last byte unread. The FIFOs never hold more than 9 bytes. */
    method MasterWriteReadFullDuplex(writeData: array<byte>, readData: array<byte>, len: nat)
      returns (ghost clean: bool)
      requires Valid() && len <= writeData.Length && len <= readData.Length
      modifies this`mode, this`tx, this`rx, this`remaining, this`sent, this`incoming, this`peak, this`timeouts, readData
      ensures Valid() && old(timeouts) <= timeouts && (clean <==> timeouts == old(timeouts))
      ensures mode == WriteAndRead && |sent| + remaining == |old(sent)| + Count(len)
      ensures clean ==> peak <= 9 && Out() == old(sent) + old(writeData[0..len])
      ensures clean ==> Received(old(readData[..]), readData[..], 0, if len == 8 then 7 else len, old(incoming), In())
    {
      Start(WriteAndRead, len);
      assert In() == old(incoming) && Out() == old(sent);
      clean := DuplexLoop(writeData, readData, len);
    }

    /** `spi_master_read`: set up for reading, then `spi_read`. */
    method MasterRead(data: array<byte>, len: nat) returns (status: Status, ghost done: nat)
      requires Valid() && len <= data.Length
      modifies this`mode, this`tx, this`rx, this`remaining, this`sent, this`incoming, this`peak, this`timeouts, data
      ensures Valid() && done <= len && (status.Success? ==> done == len <= Count(len))
      ensures Received(old(data[..]), data[..], 0, done, old(incoming), In())
      ensures mode == ReadOnly && remaining + |old(incoming)| - |incoming| == Count(len)
      ensures timeouts == old(timeouts) + if status.Timeout? then 1 else 0
    {
      Start(ReadOnly, len);
      assert In() == old(incoming);
      status, done := Read(data, 0, len);
    }
  }

  // ------------------------- a looped-back transfer

  /** What one side writes, the other side reads: when both succeed, the two loops undo each other for every length. */
  method Loopback(a: Gspi, b: Gspi, data: array<byte>, buffer: array<byte>, len: nat) returns (ok: bool)
    requires a.Valid() && b.Valid() && a != b && data != buffer
    requires len <= data.Length && len <= buffer.Length
    modifies a, b, buffer
    ensures ok ==> 1 <= len <= 0x100_0000 && buffer[..len] == data[..len]
    ensures a.timeouts == old(a.timeouts) && b.timeouts == old(b.timeouts) ==> ok
  {
    CountExactly(len);
    var from := |a.sent|;
    var status;
    ghost var early;
    status, early := a.MasterWrite(data, len);
    if status.Timeout? {
      return false;
    }
    b.incoming := a.sent[from..];
    assert b.incoming == data[..Count(len)];
    var readStatus;
    ghost var done;
    readStatus, done := b.MasterRead(buffer, len);
    ok := readStatus.Success?;
  }
}
