/** The first I2C master: eight bytes of FIFO, polled against a deadline (i2c.c, first half). */
module I2cMaster {
  import opened I2cCommon

  const DEPTH: nat := 8

  /** What the driver tells the bus to do. `Send` and `Fetch` may carry a STOP after their last byte. */
  datatype Command = Select(id: byte) | Send(len: nat, stop: bool) | Fetch(len: nat, stop: bool) | Stop

  /** `i2c_master_set_len`: what three bytes hold of the length. */
  function Loaded(len: nat): (n: nat)
    ensures n <= 0xff_ffff && (n == len <==> len <= 0xff_ffff) && n <= len
  {
    len % 0x100_0000
  }

  // ------------------------- command logs

  /** A write of `len` bytes launches its data phase with the first byte that enters the FIFO. */
  function WriteHead(id: byte, cnt: nat, len: nat, stopEn: nat): seq<Command>
  {
    [Select(WriteId(id))] + if cnt == 0 then [] else [Send(Loaded(len), stopEn != STOP_OFF)]
  }

  /** A write that ended with `r` when `cnt` bytes had entered the FIFO. */
  predicate IsWriteLog(log: seq<Command>, id: byte, cnt: nat, len: nat, stopEn: nat, r: nat)
  {
    var head := WriteHead(id, cnt, len, stopEn);
    if r == DONE then cnt == len && log == head
    else if r == NACKED then cnt <= len && log == head + [Stop]
    else r == TIMEOUT && cnt <= len && (log == head || log == head + [Stop])
  }

  function ReadHead(id: byte, len: nat, stopEn: nat): seq<Command>
  {
    [Select(ReadId(id)), Fetch(Loaded(len), stopEn != STOP_OFF)]
  }

  /** A read that ended with `r` when `cnt` bytes had left the FIFO. */
  predicate IsReadLog(log: seq<Command>, id: byte, cnt: nat, len: nat, stopEn: nat, r: nat)
  {
    if r == DONE then cnt == len && log == ReadHead(id, len, stopEn)
    else if r == NACKED then cnt == 0 && log == [Select(ReadId(id)), Stop]
    else r == TIMEOUT && cnt <= len
         && (|| (cnt == 0 && (log == [Select(ReadId(id))] || log == [Select(ReadId(id)), Stop]))
             || log == ReadHead(id, len, stopEn))
  }

  /** The driver asks for STOP by itself exactly when it has found a refusal. */
  predicate FoundRefusal(log: seq<Command>)
  {
    log != [] && log[|log| - 1] == Stop
  }

  /** What decides between the results of one transfer: timeouts first, then refusals. */
  predicate Decides(timeouts: nat, log: seq<Command>, r: nat)
  {
    && (r == TIMEOUT <==> timeouts > 0)
    && (r == NACKED <==> timeouts == 0 && FoundRefusal(log))
    && (r == DONE <==> timeouts == 0 && !FoundRefusal(log))
  }

  lemma WriteDecides(timeouts: nat, log: seq<Command>, id: byte, cnt: nat, len: nat, stopEn: nat, r: nat)
    requires IsWriteLog(log, id, cnt, len, stopEn, r) && (r == TIMEOUT <==> timeouts > 0)
    ensures Decides(timeouts, log, r)
  {
  }

  lemma ReadDecides(timeouts: nat, log: seq<Command>, id: byte, cnt: nat, len: nat, stopEn: nat, r: nat)
    requires IsReadLog(log, id, cnt, len, stopEn, r) && (r == TIMEOUT <==> timeouts > 0)
    ensures Decides(timeouts, log, r)
  {
  }

  predicate IsWriteReadLog(log: seq<Command>, wl: seq<Command>, rl: seq<Command>, id: byte,
                           sent: nat, wrLen: nat, got: nat, rdLen: nat, stopEn: nat, w: nat, d: nat)
  {
    && log == wl + rl
    && IsWriteLog(wl, id, sent, wrLen, stopEn, w)
    && if w == NACKED then rl == [] else IsReadLog(rl, id, got, rdLen, STOP_ON, d)
  }

  predicate Stopping(c: Command)
  {
    c == Stop || ((c.Send? || c.Fetch?) && c.stop)
  }

  function Stops(log: seq<Command>): nat
  {
    if log == [] then 0 else (if Stopping(log[0]) then 1 else 0) + Stops(log[1..])
  }

  lemma {:induction false} StopsAppend(s: seq<Command>, t: seq<Command>)
    ensures Stops(s + t) == Stops(s) + Stops(t)
  {
    if s == [] {
      assert s + t == t;
    } else {
      assert (s + t)[1..] == s[1..] + t;
      StopsAppend(s[1..], t);
    }
  }

  lemma StopsOfTwo(a: Command, b: Command)
    ensures Stops([a]) == if Stopping(a) then 1 else 0
    ensures Stops([a, b]) == Stops([a]) + Stops([b])
  {
    assert [a, b][1..] == [b];
    assert [a][1..] == [];
    assert [b][1..] == [];
  }

  /** A write that succeeds stops the bus exactly when the flag is on and there was a byte to send; an empty one never
      does. */
  lemma WriteStops(log: seq<Command>, id: byte, len: nat, stopEn: nat)
    requires IsWriteLog(log, id, len, len, stopEn, DONE)
    ensures Stops(log) == if stopEn != STOP_OFF && len > 0 then 1 else 0
    ensures Stopping(log[|log| - 1]) <==> stopEn != STOP_OFF && len > 0
  {
    StopsOfTwo(Select(WriteId(id)), Send(Loaded(len), stopEn != STOP_OFF));
  }

  /** A refused write asks for STOP last, a second time if the data phase had been launched with one. */
  lemma RefusedWriteStops(log: seq<Command>, id: byte, cnt: nat, len: nat, stopEn: nat)
    requires IsWriteLog(log, id, cnt, len, stopEn, NACKED)
    ensures log[|log| - 1] == Stop
    ensures Stops(log) == if stopEn != STOP_OFF && cnt > 0 then 2 else 1
  {
    StopsOfTwo(Select(WriteId(id)), Send(Loaded(len), stopEn != STOP_OFF));
    StopsOfTwo(Stop, Stop);
    StopsAppend(WriteHead(id, cnt, len, stopEn), [Stop]);
  }

  /** Without timeouts a combined transfer ends by stopping the bus whatever the flag, and never stops between its
      halves with the flag off. */
  lemma WriteReadEndsInStop(log: seq<Command>, wl: seq<Command>, rl: seq<Command>, id: byte,
                            sent: nat, wrLen: nat, got: nat, rdLen: nat, stopEn: nat, w: nat, d: nat)
    requires IsWriteReadLog(log, wl, rl, id, sent, wrLen, got, rdLen, stopEn, w, d) && w != TIMEOUT && d != TIMEOUT
    ensures log != [] && Stopping(log[|log| - 1])
    ensures w == DONE && stopEn == STOP_OFF ==> Stops(log) == 1
  {
    if w == NACKED {
      assert log == wl;
    } else {
      WriteStops(wl, id, wrLen, stopEn);
      StopsAppend(wl, rl);
      StopsOfTwo(Select(ReadId(id)), if d == DONE then Fetch(Loaded(rdLen), true) else Stop);
    }
  }

  // ------------------------- the driver

  class I2c {
    var stopEn: nat
    /** The last request to `i2c_master_send_stop` from outside the driver. */
    ghost var requested: nat
    /** The core's cycle counter, and how many cycles a wait may take. */
    var now: nat
    var limit: nat
    /** How many waits have timed out or passed their deadline. */
    ghost var timeouts: nat
    var nak: bool
    ghost var log: seq<Command>

    /** Bytes put into the transmit FIFO and not cleared from it; the first `out` of them have left for the bus. */
    ghost var tx: seq<byte>
    var out: nat
    var txCount: nat
    /** Bytes received and not cleared; the driver has taken the first `taken` of them. */
    var rx: seq<byte>
    var taken: nat
    /** Bytes through each FIFO since it was cleared: the hardware's pointers are these modulo 4. */
    ghost var pushed: nat
    ghost var popped: nat
    /** Where the current transfer, which counts its bytes in hardware, stops sending and stops receiving. */
    var outEnd: nat
    var rxEnd: nat

    ghost predicate Valid()
      reads this
    {
      && stopEn == requested && (requested == STOP_ON || requested == STOP_OFF)
      && Flowing()
    }

    ghost predicate Flowing()
      reads this
    {
      && out <= |tx| && txCount == |tx| - out <= DEPTH && out <= outEnd
      && taken <= |rx| <= rxEnd
    }

    constructor (limit: nat)
      ensures Valid() && stopEn == STOP_ON && log == [] && tx == [] && rx == [] && timeouts == 0
    {
      stopEn, requested, this.limit := STOP_ON, STOP_ON, limit;
      now, nak, log, timeouts := 0, false, [], 0;
      tx, out, txCount, rx, taken, pushed, popped := [], 0, 0, [], 0, 0, 0;
      outEnd, rxEnd := 0, 0;
    }

    method SetStop(en: nat)
      modifies this`stopEn
      ensures stopEn == if en == 1 then STOP_ON else STOP_OFF
    {
      if en == 1 {
        stopEn := STOP_ON;
      } else {
        stopEn := STOP_OFF;
      }
    }

    /** `i2c_master_send_stop` */
    method SendStop(en: nat)
      requires Valid()
      modifies this`stopEn, this`requested
      ensures Valid() && requested == if en == 1 then STOP_ON else STOP_OFF
    {
      SetStop(en);
      requested := stopEn;
    }

    /** Time passes: bytes leave for the bus, bytes arrive, and a refusal may be noted. */
    method Elapse()
      requires Flowing()
      modifies this`now, this`nak, this`out, this`txCount, this`rx
      ensures Flowing() && now > old(now)
      ensures old(out) <= out && old(rx) <= rx
    {
      var cycles: nat :| cycles > 0;
      now := now + cycles;
      nak := *;
      var gone: nat :| gone <= txCount && out + gone <= outEnd;
      out, txCount := out + gone, txCount - gone;
      var none: seq<byte> := [];
      var arrived: seq<byte> :| arrived == none || |rx| + |arrived| <= rxEnd;
      rx := rx + arrived;
    }

    method Wait() returns (timeout: bool)
      requires Flowing()
      modifies this`timeouts, this`now, this`nak, this`out, this`txCount, this`rx
      ensures Flowing() && old(out) <= out && old(rx) <= rx
      ensures timeouts == old(timeouts) + if timeout then 1 else 0
    {
      Elapse();
      timeout := *;
      if timeout {
        timeouts := timeouts + 1;
      }
    }

    /** `core_cclk_time_exceed` */
    method TimeExceeded(start: nat) returns (late: bool)
      requires Flowing()
      modifies this`timeouts, this`now, this`nak, this`out, this`txCount, this`rx
      ensures Flowing() && old(out) <= out && old(rx) <= rx
      ensures now > old(now) && late == (now > start + limit)
      ensures timeouts == old(timeouts) + if late then 1 else 0
    {
      Elapse();
      late := now > start + limit;
      if late {
        timeouts := timeouts + 1;
      }
    }

    method ClearTx()
      requires Flowing()
      modifies this`tx, this`txCount, this`pushed
      ensures Flowing() && tx == old(tx[..out]) && pushed == 0
    {
      tx, txCount, pushed := tx[..out], 0, 0;
    }

    method ClearRx()
      requires Flowing()
      modifies this`rx, this`popped
      ensures Flowing() && rx == old(rx[..taken]) && popped == 0
    {
      rx, popped := rx[..taken], 0;
    }

    /** Writing the data register: only the lane under the hardware's pointer appends to the FIFO, and no byte may follow
        a refusal. */
    method Push(lane: nat, b: byte)
      requires Flowing() && txCount < DEPTH && lane == pushed % 4 && !nak
      modifies this`tx, this`txCount, this`pushed
      ensures Flowing() && tx == old(tx) + [b] && pushed == old(pushed) + 1
    {
      tx, txCount, pushed := tx + [b], txCount + 1, pushed + 1;
    }

    method Pop(lane: nat) returns (b: byte)
      requires Flowing() && taken < |rx| && lane == popped % 4
      modifies this`taken, this`popped
      ensures Flowing() && b == rx[old(taken)] && taken == old(taken) + 1 && popped == old(popped) + 1
    {
      b := rx[taken];
      taken, popped := taken + 1, popped + 1;
    }

    /** `i2c_master_id_nack_detect`, and what `I2C_NACK_DETECT` returns when it fires */
    method IdNackDetect() returns (found: bool, r: nat)
      requires Flowing()
      modifies this`timeouts, this`now, this`nak, this`out, this`txCount, this`rx, this`log
      ensures Flowing() && old(out) <= out && old(rx) <= rx
      ensures found == old(nak) && (r == NACKED || r == TIMEOUT)
      ensures timeouts == old(timeouts) + if found && r == TIMEOUT then 1 else 0
      ensures log == old(log) + if found then [Stop] else []
      ensures !found ==> now == old(now) && txCount == old(txCount) && !nak
    {
      found, r := nak, NACKED;
      if found {
        nak, log := false, log + [Stop];
        var timeout := Wait();
        r := if timeout then TIMEOUT else NACKED;
      }
    }

    /** `i2c_master_data_nack_detect`: as above, and the bytes still waiting are dropped. */
    method DataNackDetect() returns (found: bool, r: nat)
      requires Flowing()
      modifies this`timeouts, this`now, this`nak, this`out, this`txCount, this`rx, this`log, this`tx, this`pushed
      ensures Flowing() && old(out) <= out && old(rx) <= rx
      ensures found == old(nak) && (r == NACKED || r == TIMEOUT)
      ensures timeouts == old(timeouts) + if found && r == TIMEOUT then 1 else 0
      ensures log == old(log) + if found then [Stop] else []
      ensures found && r == NACKED ==> out <= |old(tx)| && tx == old(tx)[..out]
      ensures found && r == TIMEOUT ==> tx == old(tx)
      ensures !found ==> tx == old(tx) && pushed == old(pushed) && now == old(now) && txCount == old(txCount) && !nak
    {
      found, r := IdNackDetect();
      if found && r == NACKED {
        ClearTx();
      }
    }

    /** `cnt` bytes of `data` have entered the FIFO since it held `tx0`, and the data phase is launched if there are any. */
    ghost predicate Fed(id: byte, data: seq<byte>, cnt: nat, len: nat, before: seq<Command>, tx0: seq<byte>)
      requires cnt <= |data|
      reads this
    {
      && pushed == cnt && tx == tx0 + data[..cnt] && log == before + WriteHead(id, cnt, len, stopEn)
      && (cnt > 0 ==> outEnd == |tx0| + Loaded(len))
    }

    /** One round of the polling loop after its NACK check: a byte goes in if there is room. */
    method Feed(ghost id: byte, data: array<byte>, cnt: nat, len: nat, ghost before: seq<Command>, ghost tx0: seq<byte>)
      returns (fed: bool)
      requires Flowing() && cnt < len <= data.Length && !nak && |tx0| <= out && Fed(id, data[..], cnt, len, before, tx0)
      modifies this`log, this`tx, this`txCount, this`pushed, this`outEnd
      ensures Flowing() && Fed(id, data[..], if fed then cnt + 1 else cnt, len, before, tx0)
    {
      fed := txCount < DEPTH;
      if fed {
        Push(cnt % 4, data[cnt]);
        assert data[..][..cnt + 1] == data[..][..cnt] + [data[cnt]];
        if cnt + 1 == 1 {
          log := log + [Send(Loaded(len), stopEn != STOP_OFF)];
          outEnd := out + Loaded(len);
        }
      }
    }

    /** The first loop of `i2c_master_write`: `r` is DONE when every byte has entered the FIFO. */
    method FillFifo(id: byte, data: array<byte>, len: nat, ghost before: seq<Command>)
      returns (r: nat, cnt: nat, start: nat, ghost kept: nat)
      requires Flowing() && len <= data.Length && pushed == 0 && out == |tx|
      requires log == before + WriteHead(id, 0, len, stopEn)
      modifies this`timeouts, this`now, this`nak, this`out, this`txCount, this`rx, this`log, this`tx, this`pushed, this`outEnd
      ensures Flowing() && old(out) <= out
      ensures kept <= cnt <= len && tx == old(tx) + data[..kept]
      ensures r == NACKED || r == DONE || r == TIMEOUT
      ensures timeouts == old(timeouts) + if r == TIMEOUT then 1 else 0
      ensures r == DONE ==> cnt == len && start <= now <= start + limit && log == before + WriteHead(id, cnt, len, stopEn)
      ensures r != NACKED ==> kept == cnt
      ensures r == DONE && cnt > 0 ==> outEnd == |old(tx)| + Loaded(len)
      ensures r == NACKED ==> out == |tx| && log == before + WriteHead(id, cnt, len, stopEn) + [Stop]
      ensures r == TIMEOUT ==> log == before + WriteHead(id, cnt, len, stopEn) || log == before + WriteHead(id, cnt, len, stopEn) + [Stop]
    {
      cnt, start, kept := 0, now, 0;
      ghost var tx0, out0 := tx, out;
      while cnt < len
        invariant cnt <= len && kept == cnt && Flowing() && out0 <= out
        invariant Fed(id, data[..], cnt, len, before, tx0) && timeouts == old(timeouts)
        invariant start <= now <= start + limit
        decreases len - cnt, start + limit - now
      {
        var found;
        found, r := DataNackDetect();
        if found {
          kept := if r == NACKED then out - |tx0| else cnt;
          return;
        }
        var fed := Feed(id, data, cnt, len, before, tx0);
        if fed {
          start := now;
          cnt, kept := cnt + 1, kept + 1;
        }
        var late := TimeExceeded(start);
        if late {
          r := TIMEOUT;
          return;
        }
      }
      r := DONE;
    }

    /** The second loop of `i2c_master_write`: waiting until the FIFO is empty, against the deadline set by the last
        byte fed. */
    method Drain(start: nat, ghost head: seq<Command>) returns (r: nat)
      requires Flowing() && start <= now <= start + limit && log == head
      modifies this`timeouts, this`now, this`nak, this`out, this`txCount, this`rx, this`log, this`tx, this`pushed
      ensures Flowing() && old(out) <= out
      ensures r == NACKED || r == DONE || r == TIMEOUT
      ensures timeouts == old(timeouts) + if r == TIMEOUT then 1 else 0
      ensures r == DONE ==> out == |tx| && log == head
      ensures r == NACKED ==> out == |tx| <= |old(tx)| && log == head + [Stop]
      ensures r == TIMEOUT ==> log == head || log == head + [Stop]
      ensures tx == old(tx)[..if r == NACKED then |tx| else |old(tx)|]
    {
      while txCount != 0
        invariant Flowing() && old(out) <= out
        invariant tx == old(tx) && log == head && timeouts == old(timeouts)
        invariant start <= now <= start + limit
        decreases start + limit - now
      {
        var late := TimeExceeded(start);
        if late {
          return TIMEOUT;
        }
        var found;
        found, r := DataNackDetect();
        if found {
          return;
        }
      }
      r := DONE;
    }

    /** START, the identifier and the check of its answer: both transfers begin with this. */
    method Address(id: byte) returns (r: nat)
      requires Flowing()
      modifies this`timeouts, this`now, this`nak, this`out, this`txCount, this`rx, this`log, this`outEnd, this`rxEnd
      ensures Flowing() && out == old(out) && rx == old(rx)
      ensures r == NACKED || r == DONE || r == TIMEOUT
      ensures timeouts == old(timeouts) + if r == TIMEOUT then 1 else 0
      ensures r == DONE ==> log == old(log) + [Select(id)] && !nak
      ensures r == NACKED ==> log == old(log) + [Select(id), Stop]
      ensures r == TIMEOUT ==> log == old(log) + [Select(id)] || log == old(log) + [Select(id), Stop]
    {
      log := log + [Select(id)];
      outEnd, rxEnd := out, |rx|;
      var timeout := Wait();
      if timeout {
        return TIMEOUT;
      }
      var found;
      found, r := IdNackDetect();
      if !found {
        r := DONE;
      }
    }

    /** The data phase of `i2c_master_write`: fill, drain, then wait for the bus to be idle. */
    method SendAll(id: byte, data: array<byte>, len: nat, ghost before: seq<Command>)
      returns (r: nat, ghost cnt: nat, ghost kept: nat)
      requires Flowing() && len <= data.Length && pushed == 0 && out == |tx|
      requires log == before + WriteHead(id, 0, len, stopEn)
      modifies this`timeouts, this`now, this`nak, this`out, this`txCount, this`rx, this`log, this`tx, this`pushed, this`outEnd
      ensures Flowing() && old(out) <= out
      ensures kept <= cnt <= len && tx == old(tx) + data[..kept]
      ensures r == NACKED || r == DONE || r == TIMEOUT
      ensures timeouts == old(timeouts) + if r == TIMEOUT then 1 else 0
      ensures r == DONE ==> cnt == len && log == before + WriteHead(id, cnt, len, stopEn)
      ensures r != NACKED ==> kept == cnt
      ensures r == DONE ==> len <= 0xff_ffff
      ensures r != TIMEOUT ==> out == |tx|
      ensures r == NACKED ==> log == before + WriteHead(id, cnt, len, stopEn) + [Stop]
      ensures r == TIMEOUT ==> log == before + WriteHead(id, cnt, len, stopEn) || log == before + WriteHead(id, cnt, len, stopEn) + [Stop]
    {
      var fed, start;
      ghost var tx0 := tx;
      r, fed, start, kept := FillFifo(id, data, len, before);
      cnt := fed;
      if r == DONE {
        r := Drain(start, log);
        if r == NACKED {
          kept := |tx| - |tx0|;
        } else if r == DONE {
          var timeout := Wait();
          r := if timeout then TIMEOUT else DONE;
        }
      }
    }

    /** What reaches the bus: the bytes before the call, then the first `kept` of `data`. */
    ghost predicate Delivers(wasTx: seq<byte>, wasOut: nat, data: seq<byte>, kept: nat, cnt: nat, r: nat)
      requires wasOut <= |wasTx| && kept <= |data|
      reads this
    {
      && kept <= cnt && tx == wasTx[..wasOut] + data[..kept] && wasOut <= out
      && (r != NACKED ==> kept == cnt)
      && (r != TIMEOUT ==> out == |tx|)
    }

    /** `i2c_master_write`: `cnt` bytes entered the FIFO, each at the lane under the hardware's pointer. */
    method MasterWrite(id: byte, data: array<byte>, len: nat) returns (r: nat, ghost cnt: nat, ghost kept: nat)
      requires Valid() && len <= data.Length
      modifies this`timeouts, this`now, this`nak, this`out, this`txCount, this`rx, this`log, this`tx, this`pushed, this`outEnd, this`rxEnd
      ensures Valid() && kept <= cnt <= len && old(log) <= log
      ensures IsWriteLog(log[|old(log)|..], id, cnt, len, stopEn, r)
      ensures old(timeouts) <= timeouts <= old(timeouts) + 1 && Decides(timeouts - old(timeouts), log[|old(log)|..], r)
      ensures r == DONE ==> len <= 0xff_ffff
      ensures Delivers(old(tx), old(out), data[..], kept, cnt, r)
    {
      cnt, kept := 0, 0;
      ghost var before := log;
      ClearTx();
      r := Address(WriteId(id));
      if r == DONE {
        r, cnt, kept := SendAll(id, data, len, before);
      }
      assert data[..][..kept] == data[..kept];
      WriteDecides(timeouts - old(timeouts), log[|before|..], id, cnt, len, stopEn, r);
    }

    /** The loop of `i2c_master_read`. */
    method EmptyFifo(data: array<byte>, len: nat) returns (late: bool, cnt: nat)
      requires Flowing() && len <= data.Length && popped == 0
      modifies this`timeouts, this`now, this`nak, this`out, this`txCount, this`rx, this`taken, this`popped, data
      ensures Flowing() && old(out) <= out && old(rx) <= rx
      ensures cnt <= len && (!late ==> cnt == len) && taken == old(taken) + cnt
      ensures timeouts == old(timeouts) + if late then 1 else 0
      ensures forall k :: 0 <= k < cnt ==> data[k] == rx[old(taken) + k]
      ensures forall k :: cnt <= k < data.Length ==> data[k] == old(data[k])
    {
      cnt, late := 0, false;
      var start: nat := now;
      ghost var taken0 := taken;
      while cnt < len
        invariant cnt <= len && popped == cnt && taken == taken0 + cnt && timeouts == old(timeouts)
        invariant Flowing() && old(out) <= out && old(rx) <= rx
        invariant forall k :: 0 <= k < cnt ==> data[k] == rx[taken0 + k]
        invariant forall k :: cnt <= k < data.Length ==> data[k] == old(data[k])
        invariant start <= now <= start + limit
        decreases len - cnt, start + limit - now
      {
        if taken < |rx| {
          data[cnt] := Pop(cnt % 4);
          cnt, start := cnt + 1, now;
        }
        ghost var seen := rx;
        late := TimeExceeded(start);
        assert forall k :: 0 <= k < |seen| ==> rx[k] == seen[k];
        if late {
          return;
        }
      }
      late := false;
    }

    /** `i2c_master_read`: the buffer holds, in order, the bytes that arrived after the receive FIFO was cleared. */
    method MasterRead(id: byte, data: array<byte>, len: nat) returns (r: nat, ghost cnt: nat)
      requires Flowing() && len <= data.Length
      modifies this`timeouts, this`now, this`nak, this`out, this`txCount, this`rx, this`log, this`taken, this`popped, this`outEnd, this`rxEnd, data
      ensures Flowing() && old(out) <= out && cnt <= len && old(log) <= log
      ensures IsReadLog(log[|old(log)|..], id, cnt, len, stopEn, r)
      ensures old(timeouts) <= timeouts <= old(timeouts) + 1 && Decides(timeouts - old(timeouts), log[|old(log)|..], r)
      ensures r == DONE ==> len <= 0xff_ffff && rxEnd == old(taken) + len
      ensures taken == old(taken) + cnt && old(rx[..taken]) <= rx
      ensures forall k :: 0 <= k < cnt ==> data[k] == rx[old(taken) + k]
      ensures forall k :: cnt <= k < data.Length ==> data[k] == old(data[k])
    {
      cnt := 0;
      ghost var before := log;
      ClearRx();
      r := Address(ReadId(id));
      if r != DONE {
        ReadDecides(timeouts - old(timeouts), log[|before|..], id, cnt, len, stopEn, r);
        return;
      }
      log := log + [Fetch(Loaded(len), stopEn != STOP_OFF)];
      rxEnd := |rx| + Loaded(len);
      assert log[|before|..] == ReadHead(id, len, stopEn);
      var timeout, got := EmptyFifo(data, len);
      cnt := got;
      if timeout {
        r := TIMEOUT;
        return;
      }
      timeout := Wait();
      r := if timeout then TIMEOUT else DONE;
      ReadDecides(timeouts - old(timeouts), log[|before|..], id, cnt, len, stopEn, r);
    }

    /** `i2c_master_write_read`: `w` and `d` are what the two halves returned, after `tw` and `td` timeouts. */
    method MasterWriteRead(id: byte, wrData: array<byte>, wrLen: nat, rdData: array<byte>, rdLen: nat)
      returns (r: nat, ghost w: nat, ghost d: nat, ghost sent: nat, ghost kept: nat, ghost got: nat,
               ghost wl: seq<Command>, ghost rl: seq<Command>, ghost tw: nat, ghost td: nat)
      requires Valid() && wrLen <= wrData.Length && rdLen <= rdData.Length
      modifies this, rdData
      ensures Valid() && requested == old(requested)
      ensures sent <= wrLen && got <= rdLen && old(log) <= log
      ensures IsWriteReadLog(log[|old(log)|..], wl, rl, id, sent, wrLen, got, rdLen, stopEn, w, d)
      ensures kept <= sent && Delivers(old(tx), old(out), old(wrData[..]), kept, sent, w)
      ensures taken == old(taken) + got <= |rx| && forall k :: 0 <= k < got ==> rdData[k] == rx[old(taken) + k]
      ensures r == if w == NACKED || d == NACKED then NACKED else DONE
      ensures timeouts == old(timeouts) + tw + td && Decides(tw, wl, w) && (w != NACKED ==> Decides(td, rl, d))
      ensures r == NACKED <==> (tw == 0 && FoundRefusal(wl)) || (td == 0 && FoundRefusal(rl))
      ensures (w == DONE ==> wrLen <= 0xff_ffff) && (d == DONE && w != NACKED ==> rdLen <= 0xff_ffff)
    {
      ghost var before := log;
      var result;
      result, sent, kept := MasterWrite(id, wrData, wrLen);
      w, d, got, wl, rl, tw, td := result, DONE, 0, log[|before|..], [], timeouts - old(timeouts), 0;
      if result == NACKED {
        r := NACKED;
        return;
      }
      var saved := stopEn;
      if saved == STOP_OFF {
        SetStop(1);
      }
      ghost var middle := log;
      result, got := MasterRead(id, rdData, rdLen);
      d, rl, td := result, log[|middle|..], timeouts - old(timeouts) - tw;
      assert log[|before|..] == wl + rl;
      if result == NACKED {
        if saved == STOP_OFF {
          SetStop(0);
        }
        r := NACKED;
        return;
      }
      if saved == STOP_OFF {
        SetStop(0);
      }
      r := DONE;
    }
  }
}
