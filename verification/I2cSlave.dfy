/** The I2C block as a slave: the receive index kept in step with the FIFO's read pointer (i2c.c, i2c.h). */
module I2cSlave {
  import opened I2cCommon

  const DEPTH: nat := 8

  /** The interrupt status bits that matter here: receive buffer, transmit buffer, clock stretching, and any other. */
  datatype Bit = RxBuf | TxBuf | Stretch | Other(n: nat)

  class Slave {
    /** `i2c_slave_rx_index` */
    var rxIndex: nat
    /** Bytes read and written since each FIFO was cleared: the hardware's pointers are these modulo 4. */
    ghost var popped: nat
    ghost var pushed: nat
    /** Everything received and not cleared, the first `taken` bytes of which have been read; everything written. */
    var rx: seq<byte>
    var taken: nat
    ghost var tx: seq<byte>
    var txCount: nat
    /** How often the bus may still let a poll pass with nothing to read or no room to write. */
    var patience: nat
    ghost var stretching: bool

    /** The receive index is always the hardware's pointer. */
    ghost predicate Valid()
      reads this
    {
      && rxIndex == popped % 4
      && taken <= |rx| && txCount <= DEPTH && txCount <= |tx|
    }

    constructor (patience: nat)
      ensures Valid() && rx == [] && tx == [] && rxIndex == 0
    {
      rxIndex, popped, pushed, rx, taken, tx, txCount := 0, 0, 0, [], 0, [], 0;
      this.patience, stretching := patience, false;
    }

    /** Between two polls bytes come and go; after `patience` fruitless polls there is a byte to read and room for one.
        */
    method Elapse()
      requires Valid()
      modifies this`rx, this`txCount, this`patience
      ensures Valid() && old(rx) <= rx && txCount <= old(txCount)
      ensures patience < old(patience) || (patience == old(patience) && taken < |rx| && txCount < DEPTH)
    {
      var arrived: seq<byte> := *;
      var gone: nat :| gone <= txCount;
      rx, txCount := rx + arrived, txCount - gone;
      if taken < |rx| && txCount < DEPTH {
      } else if patience > 0 {
        patience := patience - 1;
      } else {
        var b: byte := *;
        rx := rx + [b];
        txCount := if txCount > 0 then txCount - 1 else 0;
      }
    }

    method Pop(lane: nat) returns (b: byte)
      requires taken < |rx| && lane == popped % 4
      modifies this`taken, this`popped
      ensures b == rx[old(taken)] && taken == old(taken) + 1 && popped == old(popped) + 1
    {
      b := rx[taken];
      taken, popped := taken + 1, popped + 1;
    }

    method Push(lane: nat, b: byte)
      requires txCount < DEPTH && lane == pushed % 4
      modifies this`tx, this`txCount, this`pushed
      ensures tx == old(tx) + [b] && txCount == old(txCount) + 1 && pushed == old(pushed) + 1
    {
      tx, txCount, pushed := tx + [b], txCount + 1, pushed + 1;
    }

    /** `i2c_slave_read`: the next `len` bytes received, in order, whatever was read before in however many calls. */
    method SlaveRead(data: array<byte>, len: nat)
      requires Valid() && len <= data.Length
      modifies this`rxIndex, this`popped, this`rx, this`taken, this`txCount, this`patience, data
      ensures Valid() && taken == old(taken) + len && old(rx) <= rx
      ensures data[..len] == rx[old(taken)..taken]
      ensures forall k :: len <= k < data.Length ==> data[k] == old(data[k])
    {
      var cnt := 0;
      while cnt < len
        invariant cnt <= len && Valid() && taken == old(taken) + cnt && old(rx) <= rx
        invariant forall k :: 0 <= k < cnt ==> data[k] == rx[old(taken) + k]
        invariant forall k :: cnt <= k < data.Length ==> data[k] == old(data[k])
        decreases len - cnt, patience
      {
        ghost var seen := rx;
        Elapse();
        assert forall k :: 0 <= k < |seen| ==> rx[k] == seen[k];
        if taken < |rx| {
          data[cnt] := Pop(rxIndex);
          rxIndex := (rxIndex + 1) % 4;
          cnt := cnt + 1;
        }
      }
    }

    /** `i2c_slave_write` */
    method SlaveWrite(data: array<byte>, len: nat)
      requires Valid() && len <= data.Length
      modifies this
      ensures Valid() && popped == old(popped) && taken == old(taken) && old(rx) <= rx
      ensures tx == old(tx[..|tx| - txCount]) + data[..len]
    {
      ClrIrqStatus({TxBuf});
      ghost var sent := tx;
      var cnt := 0;
      while cnt < len
        invariant cnt <= len && Valid() && pushed == cnt && popped == old(popped) && taken == old(taken) && old(rx) <= rx
        invariant tx == sent + data[..cnt]
        decreases len - cnt, patience
      {
        Elapse();
        if txCount < DEPTH {
          Push(cnt % 4, data[cnt]);
          cnt := cnt + 1;
        }
      }
    }

    /** `i2c_clr_irq_status` tests bits, so the index is cleared whenever the hardware's pointer is. */
    method ClrIrqStatus(bits: set<Bit>)
      requires Valid()
      modifies this
      ensures Valid()
      ensures stretching == (old(stretching) && Stretch !in bits)
      ensures RxBuf in bits ==> popped == 0 && rx == old(rx[..taken])
      ensures RxBuf !in bits ==> popped == old(popped) && rx == old(rx)
      ensures TxBuf in bits ==> pushed == 0 && txCount == 0 && tx == old(tx[..|tx| - txCount])
      ensures TxBuf !in bits ==> pushed == old(pushed) && txCount == old(txCount) && tx == old(tx)
      ensures taken == old(taken) && patience == old(patience)
    {
      if Stretch in bits {
        stretching := false;
      }
      if RxBuf in bits {
        rxIndex := 0;
      }
      if RxBuf in bits {
        popped, rx := 0, rx[..taken];
      }
      if TxBuf in bits {
        pushed, tx, txCount := 0, tx[..|tx| - txCount], 0;
      }
    }

    /** `i2c_hw_fsm_reset`, and a wake-up from suspend followed by `i2c_slave_clr_rx_index` */
    method HwFsmReset()
      requires Valid()
      modifies this
      ensures Valid() && popped == 0 && pushed == 0 && rx == old(rx[..taken]) && tx == old(tx[..|tx| - txCount])
    {
      popped, rx := 0, rx[..taken];
      pushed, tx, txCount := 0, tx[..|tx| - txCount], 0;
      rxIndex := 0;
    }
  }
}
