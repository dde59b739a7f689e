/** The second I2C master: one bus command at a time, acknowledged or not (i2c.c, second half). */
module I2c1Master {
  import opened I2cCommon
  import opened Word32

  /** The slave's answer to a byte; none is known when the wait for it timed out. */
  datatype Answer = Ack | Nack | Unknown

  /** What appears on the bus. The master itself marks the last byte it receives. */
  datatype Event = Start | Id(id: byte, answer: Answer) | Data(b: byte, answer: Answer) | Received(b: byte, last: bool) | Stop

  // ------------------------- traces

  /** The identifier and then `data` went out; every byte was acknowledged, except that `last` answered the last one. */
  function Sent(id: byte, data: seq<byte>, last: Answer): (t: seq<Event>)
    ensures |t| == |data| + 2
  {
    [Start, Id(id, if data == [] then last else Ack)]
    + seq(|data|, k requires 0 <= k < |data| => Data(data[k], if k == |data| - 1 then last else Ack))
  }

  function Taken(data: seq<byte>, complete: bool): (t: seq<Event>)
    ensures |t| == |data| && forall k :: 0 <= k < |data| ==> t[k] == Received(data[k], complete && k == |data| - 1)
  {
    seq(|data|, k requires 0 <= k < |data| => Received(data[k], complete && k == |data| - 1))
  }

  function StopEvents(stopEn: nat): (t: seq<Event>)
    ensures t == [] || t == [Stop]
  {
    if stopEn == STOP_OFF then [] else [Stop]
  }

  /** A write of `len` bytes that ended with `r` after `data` went out. */
  predicate IsWriteTrace(t: seq<Event>, id: byte, data: seq<byte>, len: nat, stopEn: nat, r: nat)
  {
    if r == DONE then |data| == len && t == Sent(WriteId(id), data, Ack) + StopEvents(stopEn)
    else if r == NACKED then |data| <= len && t == Sent(WriteId(id), data, Nack) + [Stop]
    else r == TIMEOUT && |data| <= len
         && (|| t == Sent(WriteId(id), data, Unknown)
             || t == Sent(WriteId(id), data, Nack) + [Stop]
             || (|data| == len && t == Sent(WriteId(id), data, Ack) + StopEvents(stopEn)))
  }

  /** A read of `len` bytes that ended with `r` after `data` came in. */
  predicate IsReadTrace(t: seq<Event>, id: byte, data: seq<byte>, len: nat, stopEn: nat, r: nat)
  {
    var acked := Sent(ReadId(id), [], Ack);
    if r == DONE then |data| == len && t == acked + Taken(data, true) + StopEvents(stopEn)
    else if r == NACKED then data == [] && t == Sent(ReadId(id), [], Nack) + [Stop]
    else r == TIMEOUT && |data| <= len
         && (|| (data == [] && t == Sent(ReadId(id), [], Unknown))
             || (data == [] && t == Sent(ReadId(id), [], Nack) + [Stop])
             || (|data| < len && t == acked + Taken(data, false))
             || (|data| == len && t == acked + Taken(data, true) + StopEvents(stopEn)))
  }

  /** How many bytes `while (--data_len)` and the byte after it receive: a length of 0 wraps. */
  function ReadCount(len: u32): (n: nat)
    ensures n == if len == 0 then TWO_TO_THE_32 else len
  {
    Wrap(len - 1) + 1
  }

  lemma SentGrows(id: byte, data: seq<byte>, b: byte, last: Answer)
    ensures Sent(id, data + [b], last) == Sent(id, data, Ack) + [Data(b, last)]
  {
  }

  lemma TakenGrows(data: seq<byte>, b: byte, last: bool)
    ensures Taken(data + [b], last) == Taken(data, false) + [Received(b, last)]
  {
  }

  // ------------------------- what the traces promise

  predicate Refused(e: Event)
  {
    (e.Id? || e.Data?) && e.answer == Nack
  }

  ghost predicate HasRefusal(t: seq<Event>)
  {
    exists k :: 0 <= k < |t| && Refused(t[k])
  }

  /** What decides between the results of one transfer: timeouts first, then refusals. */
  ghost predicate Decides(timeouts: nat, t: seq<Event>, r: nat)
  {
    && (r == TIMEOUT <==> timeouts > 0)
    && (r == NACKED <==> timeouts == 0 && HasRefusal(t))
    && (r == DONE <==> timeouts == 0 && !HasRefusal(t))
  }

  lemma WriteDecides(timeouts: nat, t: seq<Event>, id: byte, data: seq<byte>, len: nat, stopEn: nat, r: nat)
    requires IsWriteTrace(t, id, data, len, stopEn, r) && (r == TIMEOUT <==> timeouts > 0)
    ensures Decides(timeouts, t, r)
  {
    if r == NACKED {
      assert Refused(t[|data| + 1]);
    }
  }

  lemma ReadDecides(timeouts: nat, t: seq<Event>, id: byte, data: seq<byte>, len: nat, stopEn: nat, r: nat)
    requires IsReadTrace(t, id, data, len, stopEn, r) && (r == TIMEOUT <==> timeouts > 0)
    ensures Decides(timeouts, t, r)
  {
    if r == NACKED {
      assert Refused(t[1]);
    }
  }

  function Stops(t: seq<Event>): nat
  {
    if t == [] then 0 else (if t[0] == Stop then 1 else 0) + Stops(t[1..])
  }

  lemma {:induction false} StopsAppend(s: seq<Event>, t: seq<Event>)
    ensures Stops(s + t) == Stops(s) + Stops(t)
  {
    if s == [] {
      assert s + t == t;
    } else {
      assert (s + t)[1..] == s[1..] + t;
      StopsAppend(s[1..], t);
    }
  }

  lemma {:induction false} NoStops(t: seq<Event>)
    requires forall k :: 0 <= k < |t| ==> t[k] != Stop
    ensures Stops(t) == 0
  {
    if t != [] {
      NoStops(t[1..]);
    }
  }

  lemma SentStops(id: byte, data: seq<byte>, last: Answer, stopEn: nat)
    ensures Stops(Sent(id, data, last) + [Stop]) == 1
    ensures Stops(Sent(id, data, last) + StopEvents(stopEn)) == if stopEn == STOP_OFF then 0 else 1
  {
    NoStops(Sent(id, data, last));
    StopsAppend(Sent(id, data, last), [Stop]);
    StopsAppend(Sent(id, data, last), StopEvents(stopEn));
  }

  /** A refused byte is followed by one STOP and nothing else, and the result says whether a byte was refused. */
  lemma WriteStopsAtNack(t: seq<Event>, id: byte, data: seq<byte>, len: nat, stopEn: nat, r: nat)
    requires IsWriteTrace(t, id, data, len, stopEn, r)
    ensures forall k :: 0 <= k < |t| && Refused(t[k]) ==> t[k + 1..] == [Stop]
    ensures r == NACKED ==> Refused(t[|t| - 2])
    ensures r == DONE ==> forall k :: 0 <= k < |t| ==> !Refused(t[k])
  {
    forall k | 0 <= k < |t| && Refused(t[k])
      ensures t[k + 1..] == [Stop]
    {
      assert k == |data| + 1;
    }
  }

  /** STOP: always exactly one after a refusal, after success exactly when the flag asks for it. */
  lemma WriteStops(t: seq<Event>, id: byte, data: seq<byte>, len: nat, stopEn: nat, r: nat)
    requires IsWriteTrace(t, id, data, len, stopEn, r) && r != TIMEOUT
    ensures Stops(t) == if r == DONE && stopEn == STOP_OFF then 0 else 1
    ensures t[|t| - 1] == Stop <==> !(r == DONE && stopEn == STOP_OFF)
  {
    SentStops(WriteId(id), data, Ack, stopEn);
    SentStops(WriteId(id), data, Nack, stopEn);
  }

  lemma ReadStops(t: seq<Event>, id: byte, data: seq<byte>, len: nat, stopEn: nat, r: nat)
    requires IsReadTrace(t, id, data, len, stopEn, r) && r != TIMEOUT
    ensures Stops(t) == if r == DONE && stopEn == STOP_OFF then 0 else 1
    ensures t != [] && (t[|t| - 1] == Stop <==> !(r == DONE && stopEn == STOP_OFF))
  {
    if r == DONE {
      var head := Sent(ReadId(id), [], Ack) + Taken(data, true);
      NoStops(head);
      StopsAppend(head, StopEvents(stopEn));
    } else {
      SentStops(ReadId(id), [], Nack, stopEn);
    }
  }

  /** The master releases the slave (section 3.1.6 of UM10204) by marking the last byte it takes and no other. */
  lemma ReadMarksTheLastByte(t: seq<Event>, id: byte, data: seq<byte>, len: nat, stopEn: nat, r: nat, k: nat)
    requires IsReadTrace(t, id, data, len, stopEn, r) && k < |t| && t[k].Received?
    ensures 2 <= k < |data| + 2 && t[k].b == data[k - 2]
    ensures t[k].last <==> k - 1 == len
  {
  }

  /** A combined transfer: a write that leaves the flag alone, then a read that always stops. */
  predicate IsWriteReadTrace(t: seq<Event>, wt: seq<Event>, rt: seq<Event>, id: byte,
                             sent: seq<byte>, wrLen: nat, got: seq<byte>, rdLen: nat, stopEn: nat, w: nat, d: nat)
  {
    && t == wt + rt
    && IsWriteTrace(wt, id, sent, wrLen, stopEn, w)
    && if w == NACKED then rt == [] else IsReadTrace(rt, id, got, rdLen, STOP_ON, d)
  }

  /** Without timeouts it ends in STOP whatever the flag, and with the flag off that is its only STOP: a restart joins
      the halves. */
  lemma WriteReadEndsInStop(t: seq<Event>, wt: seq<Event>, rt: seq<Event>, id: byte,
                            sent: seq<byte>, wrLen: nat, got: seq<byte>, rdLen: nat, stopEn: nat, w: nat, d: nat)
    requires IsWriteReadTrace(t, wt, rt, id, sent, wrLen, got, rdLen, stopEn, w, d) && w != TIMEOUT && d != TIMEOUT
    ensures t != [] && t[|t| - 1] == Stop
    ensures Stops(t) == if w == NACKED || stopEn == STOP_OFF then 1 else 2
  {
    StopsAppend(wt, rt);
    WriteStops(wt, id, sent, wrLen, stopEn, w);
    if w == NACKED {
      assert t == wt;
    } else {
      ReadStops(rt, id, got, rdLen, STOP_ON, d);
    }
  }

  // ------------------------- the driver

  class I2c1 {
    var stopEn: nat
    /** What has appeared on the bus. */
    ghost var bus: seq<Event>
    /** The acknowledge bit and the data register. */
    var nack: bool
    var dr: byte
    /** The last request to `i2c1_m_master_send_stop` from outside the driver. */
    ghost var requested: nat
    /** How many waits have timed out. */
    ghost var timeouts: nat

    ghost predicate Valid()
      reads this
    {
      stopEn == requested && (requested == STOP_ON || requested == STOP_OFF)
    }

    constructor ()
      ensures Valid() && stopEn == STOP_ON && bus == [] && timeouts == 0
    {
      stopEn, requested, bus, nack, dr, timeouts := STOP_ON, STOP_ON, [], false, 0, 0;
    }

    method SetStop(en: nat)
      modifies this`stopEn
      ensures stopEn == if en == 1 then STOP_ON else STOP_OFF
    {
      if en == 1 {
        stopEn := STOP_ON;
      } else {
        stopEn := STOP_OFF;
      }
    }

    /** `i2c1_m_master_send_stop` */
    method SendStop(en: nat)
      modifies this`stopEn, this`requested
      ensures Valid() && requested == if en == 1 then STOP_ON else STOP_OFF
    {
      SetStop(en);
      requested := stopEn;
    }

    /** Waiting while the master is busy: the slave does what it likes, or the wait times out. */
    method Wait() returns (timeout: bool)
      modifies this`nack, this`dr, this`timeouts
      ensures timeouts == old(timeouts) + if timeout then 1 else 0
    {
      nack, dr, timeout := *, *, *;
      if timeout {
        timeouts := timeouts + 1;
      }
    }

    ghost function AnswerSeen(timeout: bool): Answer
      reads this
    {
      if timeout then Unknown else if nack then Nack else Ack
    }

    method SendId(id: byte) returns (timeout: bool)
      modifies this`nack, this`dr, this`bus, this`timeouts
      ensures bus == old(bus) + Sent(id, [], AnswerSeen(timeout))
      ensures timeouts == old(timeouts) + if timeout then 1 else 0
    {
      timeout := Wait();
      bus := bus + [Start, Id(id, AnswerSeen(timeout))];
    }

    method SendData(b: byte) returns (timeout: bool)
      modifies this`nack, this`dr, this`bus, this`timeouts
      ensures bus == old(bus) + [Data(b, AnswerSeen(timeout))]
      ensures timeouts == old(timeouts) + if timeout then 1 else 0
    {
      dr := b;
      timeout := Wait();
      bus := bus + [Data(b, AnswerSeen(timeout))];
    }

    /** `i2c1_m_nack_detect`, and what `I2C1_M_NACK_DETECT` returns when it fires */
    method NackDetect() returns (found: bool, r: nat)
      modifies this`nack, this`dr, this`bus, this`timeouts
      ensures found == old(nack) && (r == NACKED || r == TIMEOUT)
      ensures timeouts == old(timeouts) + if found && r == TIMEOUT then 1 else 0
      ensures bus == old(bus) + if found then [Stop] else []
    {
      found, r := nack, NACKED;
      if found {
        bus := bus + [Stop];
        var timeout := Wait();
        r := if timeout then TIMEOUT else NACKED;
      }
    }

    /** The stop command at the end of a transfer. */
    method Finish() returns (r: nat)
      modifies this`nack, this`dr, this`bus, this`timeouts
      ensures r == DONE || r == TIMEOUT
      ensures timeouts == old(timeouts) + if r == TIMEOUT then 1 else 0
      ensures bus == old(bus) + StopEvents(stopEn)
    {
      bus := bus + StopEvents(stopEn);
      var timeout := Wait();
      r := if timeout then TIMEOUT else DONE;
    }

    /** `i2c1_m_master_write` */
    method MasterWrite(id: byte, data: array<byte>, len: nat) returns (r: nat, ghost sent: nat)
      requires len <= data.Length
      modifies this`nack, this`dr, this`bus, this`timeouts
      ensures sent <= len && old(bus) <= bus
      ensures IsWriteTrace(bus[|old(bus)|..], id, data[..sent], len, stopEn, r)
      ensures old(timeouts) <= timeouts <= old(timeouts) + 1 && Decides(timeouts - old(timeouts), bus[|old(bus)|..], r)
    {
      sent := 0;
      ghost var before := bus;
      var timeout := SendId(WriteId(id));
      if timeout {
        return TIMEOUT, sent;
      }
      var found;
      found, r := NackDetect();
      if found {
        WriteDecides(timeouts - old(timeouts), bus[|before|..], id, data[..sent], len, stopEn, r);
        return r, sent;
      }
      for cnt := 0 to len
        invariant sent == cnt
        invariant bus == before + Sent(WriteId(id), data[..cnt], Ack) && timeouts == old(timeouts)
      {
        timeout := SendData(data[cnt]);
        sent := sent + 1;
        SentGrows(WriteId(id), data[..cnt], data[cnt], AnswerSeen(timeout));
        assert data[..sent] == data[..cnt] + [data[cnt]];
        assert bus == before + Sent(WriteId(id), data[..sent], AnswerSeen(timeout));
        if timeout {
          return TIMEOUT, sent;
        }
        found, r := NackDetect();
        if found {
          WriteDecides(timeouts - old(timeouts), bus[|before|..], id, data[..sent], len, stopEn, r);
          return r, sent;
        }
      }
      r := Finish();
      WriteDecides(timeouts - old(timeouts), bus[|before|..], id, data[..sent], len, stopEn, r);
    }

    /** One received byte. */
    method Receive(last: bool) returns (timeout: bool)
      modifies this`nack, this`dr, this`bus, this`timeouts
      ensures bus == old(bus) + if timeout then [] else [Received(dr, last)]
      ensures timeouts == old(timeouts) + if timeout then 1 else 0
    {
      timeout := Wait();
      if !timeout {
        bus := bus + [Received(dr, last)];
      }
    }

    /** `while (--data_len)`: all bytes but the last. */
    method ReceiveMost(data: array<byte>, len: u32) returns (timeout: bool, cnt: nat)
      requires ReadCount(len) <= data.Length
      modifies this`nack, this`dr, this`bus, this`timeouts, data
      ensures cnt < ReadCount(len) && (!timeout ==> cnt == ReadCount(len) - 1)
      ensures timeouts == old(timeouts) + if timeout then 1 else 0
      ensures bus == old(bus) + Taken(data[..cnt], false)
      ensures forall k :: cnt <= k < data.Length ==> data[k] == old(data[k])
    {
      cnt, timeout := 0, false;
      var left: u32 := Wrap(len - 1);
      while left != 0
        invariant cnt + left + 1 == ReadCount(len)
        invariant bus == old(bus) + Taken(data[..cnt], false) && timeouts == old(timeouts)
        invariant forall k :: cnt <= k < data.Length ==> data[k] == old(data[k])
        decreases left
      {
        timeout := Receive(false);
        if timeout {
          return;
        }
        ghost var bytes := data[..cnt];
        data[cnt] := dr;
        assert data[..cnt + 1] == bytes + [dr];
        TakenGrows(bytes, dr, false);
        cnt, left := cnt + 1, Wrap(left - 1);
      }
      timeout := false;
    }

    /** The data phase of a read: those bytes, then the last one. */
    method ReceiveAll(data: array<byte>, len: u32) returns (timeout: bool, got: nat)
      requires ReadCount(len) <= data.Length
      modifies this`nack, this`dr, this`bus, this`timeouts, data
      ensures got <= ReadCount(len) && (timeout <==> got < ReadCount(len))
      ensures timeouts == old(timeouts) + if timeout then 1 else 0
      ensures bus == old(bus) + Taken(data[..got], !timeout)
      ensures forall k :: got <= k < data.Length ==> data[k] == old(data[k])
    {
      timeout, got := ReceiveMost(data, len);
      if timeout {
        return;
      }
      timeout := Receive(true);
      if timeout {
        return;
      }
      ghost var bytes := data[..got];
      data[got] := dr;
      assert data[..got + 1] == bytes + [dr];
      TakenGrows(bytes, dr, true);
      got := got + 1;
    }

    /** `i2c1_m_master_read` */
    method MasterRead(id: byte, data: array<byte>, len: u32) returns (r: nat, ghost got: nat)
      requires ReadCount(len) <= data.Length
      modifies this`nack, this`dr, this`bus, this`timeouts, data
      ensures got <= ReadCount(len) && old(bus) <= bus
      ensures IsReadTrace(bus[|old(bus)|..], id, data[..got], ReadCount(len), stopEn, r)
      ensures old(timeouts) <= timeouts <= old(timeouts) + 1 && Decides(timeouts - old(timeouts), bus[|old(bus)|..], r)
      ensures forall k :: got <= k < data.Length ==> data[k] == old(data[k])
    {
      got := 0;
      ghost var before := bus;
      var timeout := SendId(ReadId(id));
      if timeout {
        return TIMEOUT, got;
      }
      var found;
      found, r := NackDetect();
      if found {
        ReadDecides(timeouts - old(timeouts), bus[|before|..], id, data[..got], ReadCount(len), stopEn, r);
        return r, got;
      }
      var cnt;
      timeout, cnt := ReceiveAll(data, len);
      got := cnt;
      if timeout {
        return TIMEOUT, got;
      }
      r := Finish();
      ReadDecides(timeouts - old(timeouts), bus[|before|..], id, data[..got], ReadCount(len), stopEn, r);
    }

    /** `i2c1_m_master_write_read`: `w` and `d` are what the two halves returned, after `tw` and `td` timeouts. */
    method MasterWriteRead(id: byte, wrData: array<byte>, wrLen: nat, rdData: array<byte>, rdLen: u32)
      returns (r: nat, ghost w: nat, ghost d: nat, ghost sent: nat, ghost got: nat,
               ghost wt: seq<Event>, ghost rt: seq<Event>, ghost tw: nat, ghost td: nat)
      requires Valid() && wrLen <= wrData.Length && ReadCount(rdLen) <= rdData.Length
      modifies this, rdData
      ensures Valid() && requested == old(requested)
      ensures sent <= wrLen && got <= ReadCount(rdLen) && old(bus) <= bus
      ensures IsWriteReadTrace(bus[|old(bus)|..], wt, rt, id, old(wrData[..])[..sent], wrLen, rdData[..got], ReadCount(rdLen), stopEn, w, d)
      ensures r == if w == NACKED || d == NACKED then NACKED else DONE
      ensures timeouts == old(timeouts) + tw + td && Decides(tw, wt, w) && (w != NACKED ==> Decides(td, rt, d))
      ensures r == NACKED <==> (tw == 0 && HasRefusal(wt)) || (td == 0 && HasRefusal(rt))
    {
      ghost var before := bus;
      ghost var bytes := wrData[..];
      var result;
      result, sent := MasterWrite(id, wrData, wrLen);
      w, d, got, wt, rt, tw, td := result, DONE, 0, bus[|before|..], [], timeouts - old(timeouts), 0;
      assert wrData[..sent] == bytes[..sent];
      if result == NACKED {
        return NACKED, w, d, sent, got, wt, rt, tw, td;
      }
      var saved := stopEn;
      if saved == STOP_OFF {
        SetStop(1);
      }
      ghost var middle := bus;
      result, got := MasterRead(id, rdData, rdLen);
      d, rt, td := result, bus[|middle|..], timeouts - old(timeouts) - tw;
      assert bus[|before|..] == wt + rt;
      if result == NACKED {
        if saved == STOP_OFF {
          SetStop(0);
        }
        return NACKED, w, d, sent, got, wt, rt, tw, td;
      }
      if saved == STOP_OFF {
        SetStop(0);
      }
      r := DONE;
    }
  }
}
