/** How a DMA channel's size register packs a byte count (dma.h, dma_reg.h). */
module DmaSize {
  import opened Word32
  import DivMod

  /** `DMA_BYTE_WIDTH`, `DMA_HWORD_WIDTH`, `DMA_WORD_WIDTH`: bytes per unit. */
  type Width = w: nat | w == 1 || w == 2 || w == 4 witness 1

  /** Units of the transfer occupy 22 bits of the register, and the two bits above them count the bytes of a last
      partial unit. */
  const FIELD: nat := 0x40_0000

  function OrTwoBits(a: nat, b: nat): (c: nat)
    requires a < 4 && b < 4
    ensures c < 4
  {
    if a == 0 then b else if b == 0 || a == b then a else 3
  }

  /** `units | (extra << 22)`: only bits 22 and 23 can meet. */
  function OrAtBit22(units: u32, extra: nat): u32
    requires extra < 4
  {
    var high := units / 0x40_0000;
    high / 4 * 0x100_0000 + OrTwoBits(high % 4, extra) * 0x40_0000 + units % 0x40_0000
  }

  /** `dma_cal_size`: the units, rounded up, and above them how many bytes of the last unit are used. */
  function CalSize(size: u32, w: Width): u32
  {
    OrAtBit22(Wrap(size + w - 1) / w, size % w)
  }

  /** `dma_get_size` reads the register in two parts, 16 bits and then 8. */
  function GetSize(reg: u32, w: Width): u32
  {
    var size0, size1 := reg % 0x1_0000, reg / 0x1_0000 % 0x100;
    Wrap((size1 % 0x40 * 0x1_0000 + size0 - (if size1 / 0x40 == 0 then 0 else 1)) * w + size1 / 0x40)
  }

  /** The largest size whose units 22 bits can count: for words, the documented maximum of 0xFFFFFC bytes. */
  function Limit(w: Width): nat
  {
    (FIELD - 1) * w
  }

  /** So large that rounding up wraps. */
  predicate Wraps(size: u32, w: Width)
  {
    size + w - 1 >= TWO_TO_THE_32
  }

  // ------------------------- the fields

  function Units(reg: u32): nat
  {
    reg % 0x40_0000
  }

  function Extra(reg: u32): nat
  {
    reg / 0x40_0000 % 4
  }

  lemma ByteSplits(q: nat)
    ensures q % 0x100 % 0x40 == q % 0x40
    ensures q % 0x100 / 0x40 == q / 0x40 % 4
  {
    DivMod.Unique(0x40, q / 0x100 * 4 + q % 0x100 / 0x40, q % 0x100 % 0x40);
  }

  lemma HalvesJoin(q: nat, low: nat)
    requires low < 0x1_0000
    ensures (0x1_0000 * q + low) % 0x40_0000 == q % 0x40 * 0x1_0000 + low
    ensures (0x1_0000 * q + low) / 0x40_0000 == q / 0x40
  {
    DivMod.Unique(0x40_0000, q / 0x40, q % 0x40 * 0x1_0000 + low);
  }

  /** The two parts hold the two fields. */
  lemma PartsAreFields(reg: u32)
    ensures reg / 0x1_0000 % 0x100 % 0x40 * 0x1_0000 + reg % 0x1_0000 == Units(reg)
    ensures reg / 0x1_0000 % 0x100 / 0x40 == Extra(reg)
  {
    ByteSplits(reg / 0x1_0000);
    HalvesJoin(reg / 0x1_0000, reg % 0x1_0000);
  }

  lemma OrKeepsFields(units: u32, extra: nat)
    requires extra < 4
    ensures Units(OrAtBit22(units, extra)) == units % 0x40_0000
    ensures Extra(OrAtBit22(units, extra)) == OrTwoBits(units / 0x40_0000 % 4, extra)
  {
    var high, low := units / 0x40_0000, units % 0x40_0000;
    var mid := OrTwoBits(high % 4, extra);
    assert OrAtBit22(units, extra) == 0x40_0000 * (4 * (high / 4) + mid) + low;
  }

  /** What is read back, in terms of the fields. */
  function Joined(units: nat, extra: nat, w: Width): u32
  {
    Wrap((units - (if extra == 0 then 0 else 1)) * w + extra)
  }

  lemma GetSizeJoins(reg: u32, w: Width)
    ensures GetSize(reg, w) == Joined(Units(reg), Extra(reg), w)
  {
    PartsAreFields(reg);
  }

  // ------------------------- the round trip

  /** Rounding up, unless it wraps. */
  lemma RoundUp(size: u32, w: Width)
    ensures !Wraps(size, w) ==> Wrap(size + w - 1) / w == size / w + if size % w == 0 then 0 else 1
    ensures Wraps(size, w) ==> Wrap(size + w - 1) / w == 0 && size % w != 0 && size == TWO_TO_THE_32 - w + size % w
  {
    if w == 1 {
    } else if w == 2 {
    } else {
      assert w == 4;
    }
  }

  /** What the fields of `units` are when they fit, and when they do not. */
  ghost predicate Split(units: nat, low: nat, high: nat)
  {
    && low < FIELD && high < 4
    && if units < FIELD then low == units && high == 0 else low <= units - FIELD
  }

  lemma SmallFields(units: u32)
    ensures Split(units, units % 0x40_0000, units / 0x40_0000 % 4)
  {
  }

  /** `v` full units and `r` more bytes, stored as fields `low` and `extra`. */
  lemma JoinedExactly(size: u32, v: nat, r: nat, units: nat, low: nat, high: nat, extra: nat, w: Width)
    requires size == v * w + r && r < w && low < FIELD && high < 4 && extra == OrTwoBits(high, r)
    requires units == v + (if r == 0 then 0 else 1) && !Wraps(size, w)
    requires if units < FIELD then low == units && high == 0 else low <= units - FIELD
    ensures Joined(low, extra, w) == size <==> units < FIELD
  {
    if w == 1 {
    } else if w == 2 {
    } else {
      assert w == 4;
    }
  }

  lemma FitsIffUnitsFit(size: u32, w: Width)
    ensures size <= Limit(w) <==> size / w + (if size % w == 0 then 0 else 1) < FIELD
  {
    if w == 1 {
    } else if w == 2 {
    } else {
      assert w == 4;
    }
  }

  lemma FieldsOfSize(size: u32, w: Width)
    ensures var units := Wrap(size + w - 1) / w;
            && Units(CalSize(size, w)) == units % 0x40_0000
            && Extra(CalSize(size, w)) == OrTwoBits(units / 0x40_0000 % 4, size % w)
  {
    OrKeepsFields(Wrap(size + w - 1) / w, size % w);
  }

  lemma WrappedRoundTrip(size: u32, r: nat, w: Width)
    requires 0 < r < w && size == TWO_TO_THE_32 - w + r
    ensures Joined(0, r, w) == size
  {
  }

  lemma Decoded(size: u32, w: Width) returns (units: nat, low: nat, high: nat)
    ensures units == Wrap(size + w - 1) / w && Split(units, low, high)
    ensures GetSize(CalSize(size, w), w) == Joined(low, OrTwoBits(high, size % w), w)
  {
    units := Wrap(size + w - 1) / w;
    low, high := units % 0x40_0000, units / 0x40_0000 % 4;
    SmallFields(units);
    GetSizeJoins(CalSize(size, w), w);
    FieldsOfSize(size, w);
  }

  lemma DecodedExactly(size: u32, w: Width, units: nat, low: nat, high: nat)
    requires units == Wrap(size + w - 1) / w && Split(units, low, high)
    ensures Joined(low, OrTwoBits(high, size % w), w) == size <==> size <= Limit(w) || Wraps(size, w)
  {
    RoundUp(size, w);
    if Wraps(size, w) {
      WrappedRoundTrip(size, size % w, w);
    } else {
      FitsIffUnitsFit(size, w);
      JoinedExactly(size, size / w, size % w, units, low, high, OrTwoBits(high, size % w), w);
    }
  }

  /** For every 32-bit size: what is set is read back exactly when its units fit the field, or when rounding up wraps.
      */
  lemma RoundTripExactly(size: u32, w: Width)
    ensures GetSize(CalSize(size, w), w) == size <==> size <= Limit(w) || Wraps(size, w)
  {
    var units, low, high := Decoded(size, w);
    DecodedExactly(size, w, units, low, high);
  }

  /** Within the limit no two sizes share an encoding. */
  lemma Injective(a: u32, b: u32, w: Width)
    requires a <= Limit(w) && b <= Limit(w) && CalSize(a, w) == CalSize(b, w)
    ensures a == b
  {
    RoundTripExactly(a, w);
    RoundTripExactly(b, w);
  }

  /** The limit is tight for every width: no larger bound is safe, because one byte more is already lost. */
  lemma LimitIsTight(bound: u32, w: Width)
    requires bound > Limit(w)
    ensures exists size: u32 :: size <= bound && GetSize(CalSize(size, w), w) != size
  {
    var size: u32 := Limit(w) + 1;
    RoundTripExactly(size, w);
    assert size <= bound;
  }

  /** What the hardware finds: enough units and no more, and the bytes used of a last partial unit. */
  lemma FieldsMean(size: u32, w: Width)
    requires size <= Limit(w)
    ensures size <= Units(CalSize(size, w)) * w < size + w
    ensures Extra(CalSize(size, w)) == size % w
  {
    FieldsOfSize(size, w);
    RoundUp(size, w);
    FitsIffUnitsFit(size, w);
    SmallFields(Wrap(size + w - 1) / w);
    UnitsCover(size, w);
  }

  /** Nor does anything reach the byte above them. */
  lemma TopByteIsClear(size: u32, w: Width)
    requires size <= Limit(w)
    ensures CalSize(size, w) < 0x100_0000
  {
    RoundUp(size, w);
    FitsIffUnitsFit(size, w);
  }

  lemma UnitsCover(size: u32, w: Width)
    ensures size <= (size / w + if size % w == 0 then 0 else 1) * w < size + w
  {
    if w == 1 {
    } else if w == 2 {
    } else {
      assert w == 4;
    }
  }

  /** One channel's size register. */
  class Channel {
    var reg: u32

    constructor ()
      ensures reg == 0
    {
      reg := 0;
    }

    /** `dma_set_size`: the register is what `dma_cal_size` predicts, and reads back as the size in exactly those cases.
        */
    method SetSize(size: u32, w: Width)
      modifies this
      ensures reg == CalSize(size, w)
      ensures GetSize(reg, w) == size <==> size <= Limit(w) || Wraps(size, w)
    {
      reg := OrAtBit22(Wrap(size + w - 1) / w, size % w);
      RoundTripExactly(size, w);
    }
  }
}
