/** The 64-bit machine timer behind two 32-bit registers, counting on while it is accessed (plmt.c). */
module MachineTimer {
  import opened Word32

  function High(x: nat): nat
  {
    x / 0x1_0000_0000
  }

  function Low(x: nat): nat
  {
    x % 0x1_0000_0000
  }

  function Join(high: nat, low: nat): nat
  {
    high * 0x1_0000_0000 + low
  }

  const TWO_TO_THE_64: nat := 0x1_0000_0000_0000_0000

  lemma JoinSplits(high: nat, low: nat)
    requires low < 0x1_0000_0000
    ensures High(Join(high, low)) == high && Low(Join(high, low)) == low
  {
  }

  lemma SplitJoins(x: nat)
    ensures Join(High(x), Low(x)) == x
    ensures Low(x) < 0x1_0000_0000
    ensures x < TWO_TO_THE_64 ==> High(x) < 0x1_0000_0000
  {
  }

  lemma HighMonotone(x: nat, y: nat)
    requires x <= y
    ensures High(x) <= High(y)
  {
  }

  // ------------------------- instants

  /** What the timer holds at one instant, and how often it has ticked so far. */
  datatype Instant = Instant(mtime: nat, cmp: nat, ticks: nat)

  /** The interrupt line. */
  predicate Asserted(i: Instant)
  {
    i.mtime >= i.cmp
  }

  /** The history grew by ticks alone. */
  ghost predicate OnlyTicks(before: seq<Instant>, after: seq<Instant>)
  {
    && 0 < |before| <= |after| && before == after[..|before|]
    && forall k {:trigger after[k]} :: |before| - 1 <= k < |after| ==>
         var d := k - (|before| - 1);
         var last := before[|before| - 1];
         after[k] == Instant(last.mtime + d, last.cmp, last.ticks + d)
  }

  lemma OnlyTicksTransitive(a: seq<Instant>, b: seq<Instant>, c: seq<Instant>)
    requires OnlyTicks(a, b) && OnlyTicks(b, c)
    ensures OnlyTicks(a, c)
  {
    forall k | |a| - 1 <= k < |c|
      ensures c[k] == Instant(a[|a| - 1].mtime + (k - (|a| - 1)), a[|a| - 1].cmp, a[|a| - 1].ticks + (k - (|a| - 1)))
    {
      if k < |b| {
        assert c[k] == b[k];
      } else {
        assert b[|b| - 1] == b[|b| - 1];
      }
    }
  }

  // ------------------------- the facts the access patterns rest on

  /** A low word read between two equal high words belongs to them: together they are the count at that moment. */
  lemma MiddleReadIsExact(c0: nat, c1: nat, c2: nat)
    requires c0 <= c1 <= c2 && High(c0) == High(c2)
    ensures Join(High(c0), Low(c1)) == c1
  {
    HighMonotone(c0, c1);
    HighMonotone(c1, c2);
    SplitJoins(c1);
  }

  /** Without the second high read the pair may be a count the timer never had. */
  lemma SingleReadTears(high: nat)
    ensures exists c0: nat, c1: nat :: c0 <= c1 && High(c0) == high && Join(High(c0), Low(c1)) < c0
  {
    var c0, c1 := Join(high, 0xffff_ffff), Join(high + 1, 0);
    JoinSplits(high, 0xffff_ffff);
    JoinSplits(high + 1, 0);
    assert c0 <= c1 && High(c0) == high && Join(High(c0), Low(c1)) < c0;
  }

  /** The comparand between the three stores: first no smaller than the old one, then no smaller than the new one. */
  lemma IntermediateComparands(old': nat, new': nat)
    ensures Join(High(old'), 0xffff_ffff) >= old'
    ensures Join(High(new'), 0xffff_ffff) >= new'
  {
    SplitJoins(old');
    SplitJoins(new');
  }

  /** The second one is no smaller than the old comparand, as plmt.c has it, exactly when the high word does not get smaller. */
  lemma SecondStoreKeepsOldExactly(old': nat, new': nat)
    ensures Join(High(new'), 0xffff_ffff) >= old' <==> High(new') >= High(old')
  {
    SplitJoins(old');
  }

  /** An instance where it is smaller: from 2^32 down to 0. */
  lemma SecondStoreBelowOld()
    ensures Join(High(0), 0xffff_ffff) < 0x1_0000_0000
  {
    SplitJoins(0);
  }

  /** Storing the low half first would pass through a comparand below both. */
  lemma LowFirstIsSpurious(oldHigh: nat, newHigh: nat, newLow: nat)
    requires oldHigh < newHigh && newLow < 0xffff_ffff
    ensures var old' := Join(oldHigh, 0xffff_ffff);
            var new' := Join(newHigh, newLow);
            Join(High(old'), newLow) < old' && Join(High(old'), newLow) < new'
  {
    JoinSplits(oldHigh, 0xffff_ffff);
  }

  /** Where the count ends after the three stores of `mtime_set_value`, with `t1` and `t2` ticks in between. */
  lemma SetValueEndsAt(high: nat, low: nat, t1: nat, t2: nat)
    requires low < 0x1_0000_0000
    ensures Join(High(Join(high, Low(t1)) + t2), low) == Join(high, low) + 0x1_0000_0000 * High(Low(t1) + t2)
  {
    HighOfJoin(high, Low(t1) + t2);
  }

  lemma HighOfJoin(high: nat, sum: nat)
    ensures High(Join(high, sum)) == high + High(sum)
  {
    SplitJoins(sum);
    assert Join(high, sum) == Join(high + High(sum), Low(sum));
    JoinSplits(high + High(sum), Low(sum));
  }

  /** The carries out of the low half are ticks that really passed; there are none while fewer than 2^32 ticks do. */
  lemma Carries(t1: nat, t2: nat)
    ensures High(Low(t1) + t2) == 0 <==> Low(t1) + t2 < 0x1_0000_0000
    ensures 0x1_0000_0000 * High(Low(t1) + t2) <= t1 + t2
    ensures t1 + t2 < 0x1_0000_0000 ==> High(Low(t1) + t2) == 0
  {
  }

  /** From instant `from` on, the line is raised only where `a` or `b` would raise it. */
  ghost predicate Harmless(h: seq<Instant>, from: nat, a: nat, b: nat)
  {
    forall k {:trigger h[k]} :: from <= k < |h| && Asserted(h[k]) ==> h[k].mtime >= a || h[k].mtime >= b
  }

  lemma HarmlessTicks(before: seq<Instant>, after: seq<Instant>, from: nat, a: nat, b: nat)
    requires OnlyTicks(before, after) && from <= |before| && Harmless(before, from, a, b)
    requires before[|before| - 1].cmp >= a || before[|before| - 1].cmp >= b
    ensures Harmless(after, from, a, b)
  {
    forall k | from <= k < |after| && Asserted(after[k])
      ensures after[k].mtime >= a || after[k].mtime >= b
    {
      if k < |before| {
        assert after[k] == before[k];
      }
    }
  }

  /** What is harmless before and after a moment is harmless throughout. */
  lemma HarmlessOn(before: seq<Instant>, after: seq<Instant>, from: nat, a: nat, b: nat)
    requires before <= after && from <= |before| && Harmless(before, from, a, b) && Harmless(after, |before|, a, b)
    ensures Harmless(after, from, a, b)
  {
    forall k | from <= k < |after| && Asserted(after[k])
      ensures after[k].mtime >= a || after[k].mtime >= b
    {
      if k < |before| {
        assert after[k] == before[k];
      }
    }
  }

  /** From instant `from` on, the comparand is `cmp` and the count at most `bound` plus the ticks since `base`. */
  ghost predicate Bounded(h: seq<Instant>, from: nat, bound: nat, base: nat, cmp: nat)
  {
    forall k {:trigger h[k]} :: from <= k < |h| ==> h[k].cmp == cmp && h[k].mtime <= bound + (h[k].ticks - base)
  }

  lemma BoundedTicks(before: seq<Instant>, after: seq<Instant>, from: nat, bound: nat, base: nat, cmp: nat)
    requires OnlyTicks(before, after) && from <= |before| && Bounded(before, from, bound, base, cmp)
    requires var last := before[|before| - 1]; last.cmp == cmp && last.mtime <= bound + (last.ticks - base)
    ensures Bounded(after, from, bound, base, cmp)
  {
    forall k | from <= k < |after|
      ensures after[k].cmp == cmp && after[k].mtime <= bound + (after[k].ticks - base)
    {
      if k < |before| {
        assert after[k] == before[k];
      }
    }
  }

  function Max(x: nat, y: nat): nat
  {
    if x > y then x else y
  }

  /** The comparand an interval asks for, in 64-bit arithmetic. */
  function IntervalEnd(now: nat, clock: nat, periodMs: nat): nat
  {
    (now + clock * periodMs % TWO_TO_THE_64 / 1000) % TWO_TO_THE_64
  }

  // ------------------------- the timer and its driver

  class Plmt {
    var mtime: nat
    var mtimecmp: nat
    var clockSource: nat
    ghost var history: seq<Instant>

    ghost predicate Valid()
      reads this
    {
      && mtime < TWO_TO_THE_64 && mtimecmp < TWO_TO_THE_64
      && history != []
      && history[|history| - 1].mtime == mtime && history[|history| - 1].cmp == mtimecmp
    }

    ghost function Ticks(): nat
      reads this
    {
      if history == [] then 0 else history[|history| - 1].ticks
    }

    constructor (mtime: nat, mtimecmp: nat)
      requires mtime < TWO_TO_THE_64 && mtimecmp < TWO_TO_THE_64
      ensures Valid() && this.mtime == mtime && this.mtimecmp == mtimecmp && clockSource == 32000
    {
      this.mtime, this.mtimecmp := mtime, mtimecmp;
      clockSource := 32000;
      history := [Instant(mtime, mtimecmp, 0)];
    }

    /** `mtime_clk_init` */
    method ClkInit(rc: bool)
      modifies this`clockSource
      ensures clockSource == if rc then 32000 else 32768
    {
      clockSource := if rc then 32000 else 32768;
    }

    /** The counter runs on for any time, short of wrapping at 64 bits. */
    method Elapse()
      requires Valid()
      modifies this`mtime, this`history
      ensures Valid() && OnlyTicks(old(history), history)
    {
      var n: nat :| mtime + n < TWO_TO_THE_64;
      for i := 0 to n
        invariant mtime == old(mtime) + i && Valid() && OnlyTicks(old(history), history)
        invariant |history| == |old(history)| + i
      {
        mtime := mtime + 1;
        history := history + [Instant(mtime, mtimecmp, Ticks() + 1)];
      }
    }

    method ReadHigh() returns (v: nat)
      requires Valid()
      modifies this`mtime, this`history
      ensures Valid() && OnlyTicks(old(history), history) && v == High(mtime)
    {
      Elapse();
      v := High(mtime);
    }

    method ReadLow() returns (v: nat)
      requires Valid()
      modifies this`mtime, this`history
      ensures Valid() && OnlyTicks(old(history), history) && v == Low(mtime)
    {
      Elapse();
      v := Low(mtime);
    }

    /** `mtime_get_value`: the result is the count at an instant inside the call; each retry costs a carry. */
    method GetValue() returns (value: nat, ghost at: nat, ghost retries: nat)
      requires Valid()
      modifies this`mtime, this`history
      ensures Valid() && OnlyTicks(old(history), history)
      ensures |old(history)| - 1 <= at < |history| && history[at].mtime == value
      ensures old(mtime) <= value <= mtime
      ensures retries <= High(mtime) - High(old(mtime))
    {
      retries := 0;
      while true
        invariant Valid() && OnlyTicks(old(history), history)
        invariant retries <= High(mtime) - High(old(mtime))
        decreases 0x1_0000_0000 - High(mtime)
      {
        ghost var h0, m0 := history, mtime;
        var high := ReadHigh();
        ghost var h1, c0 := history, mtime;
        OnlyTicksTransitive(old(history), h0, h1);
        var low := ReadLow();
        ghost var h2, c1 := history, mtime;
        OnlyTicksTransitive(old(history), h1, h2);
        var again := ReadHigh();
        ghost var c2 := mtime;
        OnlyTicksTransitive(old(history), h2, history);
        HighMonotone(m0, c0);
        if high == again {
          MiddleReadIsExact(c0, c1, c2);
          at := |h2| - 1;
          return Join(high, low), at, retries;
        }
        HighMonotone(c0, c2);
        SplitJoins(c2);
        retries := retries + 1;
      }
    }

    /** One store to the comparand after any time; both the comparand so far and the new one are above `a` or `b`. */
    method TickThenStoreCmp(value: nat, ghost from: nat, ghost a: nat, ghost b: nat)
      requires Valid() && value < TWO_TO_THE_64 && from <= |history| && Harmless(history, from, a, b)
      requires (mtimecmp >= a || mtimecmp >= b) && (value >= a || value >= b)
      modifies this`mtime, this`mtimecmp, this`history
      ensures Valid() && mtimecmp == value && old(mtime) <= mtime
      ensures old(history) <= history && Harmless(history, from, a, b)
    {
      Elapse();
      HarmlessTicks(old(history), history, from, a, b);
      mtimecmp := value;
      history := history + [Instant(mtime, value, Ticks())];
    }

    /** `mtime_set_cmp_value`: the interrupt line is never raised where neither the old nor the new comparand raises it.
        */
    method SetCmpValue(value: nat)
      requires Valid() && value < TWO_TO_THE_64
      modifies this`mtime, this`mtimecmp, this`history
      ensures Valid() && mtimecmp == value && old(mtime) <= mtime
      ensures old(history) <= history && Harmless(history, |old(history)|, old(mtimecmp), value)
    {
      var high, low := High(value), Low(value);
      ghost var from, before := |history|, mtimecmp;
      SplitJoins(value);
      SplitJoins(mtimecmp);
      IntermediateComparands(mtimecmp, value);
      JoinSplits(High(mtimecmp), 0xffff_ffff);
      JoinSplits(high, 0xffff_ffff);
      TickThenStoreCmp(Join(High(mtimecmp), 0xffff_ffff), from, before, value);
      TickThenStoreCmp(Join(high, Low(mtimecmp)), from, before, value);
      TickThenStoreCmp(Join(High(mtimecmp), low), from, before, value);
    }

    /** Time passes while the count is within the bound. */
    method TickBounded(ghost from: nat, ghost bound: nat, ghost base: nat)
      requires Valid() && from <= |history| && Bounded(history, from, bound, base, mtimecmp)
      requires mtime <= bound + (Ticks() - base)
      modifies this`mtime, this`history
      ensures Valid() && old(history) <= history && Bounded(history, from, bound, base, mtimecmp)
      ensures Ticks() >= old(Ticks()) && mtime == old(mtime) + (Ticks() - old(Ticks()))
    {
      Elapse();
      BoundedTicks(old(history), history, from, bound, base, mtimecmp);
    }

    method StoreLow(low: nat, ghost from: nat, ghost bound: nat, ghost base: nat)
      requires Valid() && low < 0x1_0000_0000 && from <= |history| && Bounded(history, from, bound, base, mtimecmp)
      requires Join(High(mtime), low) <= bound + (Ticks() - base)
      modifies this`mtime, this`history
      ensures Valid() && mtime == Join(High(old(mtime)), low) && Ticks() == old(Ticks())
      ensures old(history) <= history && Bounded(history, from, bound, base, mtimecmp)
    {
      SplitJoins(mtime);
      mtime := Join(High(mtime), low);
      history := history + [Instant(mtime, mtimecmp, Ticks())];
    }

    method StoreHigh(high: nat, ghost from: nat, ghost bound: nat, ghost base: nat)
      requires Valid() && high < 0x1_0000_0000 && from <= |history| && Bounded(history, from, bound, base, mtimecmp)
      requires Join(high, Low(mtime)) <= bound + (Ticks() - base)
      modifies this`mtime, this`history
      ensures Valid() && mtime == Join(high, Low(old(mtime))) && Ticks() == old(Ticks())
      ensures old(history) <= history && Bounded(history, from, bound, base, mtimecmp)
    {
      SplitJoins(mtime);
      mtime := Join(high, Low(mtime));
      history := history + [Instant(mtime, mtimecmp, Ticks())];
    }

    /** The first store of `mtime_set_value`. */
    method ClearLow(ghost from: nat, ghost bound: nat, ghost base: nat) returns (ghost high: nat)
      requires Valid() && from <= |history| && Bounded(history, from, bound, base, mtimecmp)
      requires mtime <= bound + (Ticks() - base)
      modifies this`mtime, this`history
      ensures Valid() && mtime == Join(high, 0) <= bound + (Ticks() - base) && Ticks() >= old(Ticks())
      ensures old(history) <= history && Bounded(history, from, bound, base, mtimecmp)
    {
      TickBounded(from, bound, base);
      SplitJoins(mtime);
      high := High(mtime);
      StoreLow(0, from, bound, base);
    }

    /** The first two stores, `t1` ticks apart. */
    method ClearLowThenStoreHigh(high: nat, ghost from: nat, ghost bound: nat, ghost base: nat) returns (ghost t1: nat)
      requires Valid() && high < 0x1_0000_0000 && from <= |history| && Bounded(history, from, bound, base, mtimecmp)
      requires mtime <= bound + (Ticks() - base) && Join(high, 0) <= bound && base <= Ticks()
      modifies this`mtime, this`history
      ensures Valid() && mtime == Join(high, Low(t1)) && t1 <= Ticks() - old(Ticks())
      ensures old(history) <= history && Bounded(history, from, bound, base, mtimecmp)
    {
      ghost var h1 := ClearLow(from, bound, base);
      ghost var m1, s1 := mtime, Ticks();
      TickBounded(from, bound, base);
      t1 := Ticks() - s1;
      LowAfterTicks(h1, m1, t1);
      HalfStoreBound(high, 0, t1);
      StoreHigh(high, from, bound, base);
    }

    /** `mtime_set_value`: where it ends, and how far the count can be at any instant on the way. */
    method SetValue(value: nat) returns (ghost t1: nat, ghost t2: nat)
      requires Valid() && value < TWO_TO_THE_64
      modifies this`mtime, this`history
      ensures Valid() && t1 + t2 <= Ticks() - old(Ticks())
      ensures mtime == value + 0x1_0000_0000 * High(Low(t1) + t2)
      ensures old(history) <= history
      ensures Bounded(history, |old(history)|, Max(old(mtime), value), old(Ticks()), mtimecmp)
    {
      var high, low := High(value), Low(value);
      ghost var from, bound, base := |history|, Max(mtime, value), Ticks();
      SplitJoins(value);
      t1 := ClearLowThenStoreHigh(high, from, bound, base);
      ghost var s2 := Ticks();
      HalfStoreBound(high, low, t1);
      TickBounded(from, bound, base);
      t2 := Ticks() - s2;
      SetValueEndsAt(high, low, t1, t2);
      Carries(t1, t2);
      StoreLow(low, from, bound, base);
    }

    /** `mtime_set_interval_ms`: the comparand is a count from inside the call plus the interval, in 64 bits. */
    method SetIntervalMs(periodMs: nat) returns (ghost now: nat)
      requires Valid() && periodMs < TWO_TO_THE_64
      modifies this`mtime, this`mtimecmp, this`history
      ensures Valid() && old(mtime) <= now <= mtime
      ensures mtimecmp == IntervalEnd(now, clockSource, periodMs)
      ensures old(history) <= history && Harmless(history, |old(history)|, old(mtimecmp), mtimecmp)
    {
      var value;
      ghost var at, retries;
      value, at, retries := GetValue();
      now := value;
      ghost var read, before := history, mtimecmp;
      var end := IntervalEnd(value, clockSource, periodMs);
      HarmlessTicks(old(history), read, |old(history)|, before, end);
      SetCmpValue(end);
      HarmlessOn(read, history, |old(history)|, before, end);
    }
  }

  lemma HalfStoreBound(high: nat, low: nat, t1: nat)
    ensures Join(high, Low(t1)) <= Join(high, low) + t1
  {
    SplitJoins(t1);
  }

  lemma LowAfterTicks(high: nat, start: nat, ticks: nat)
    requires start == Join(high, 0)
    ensures Low(start + ticks) == Low(ticks)
  {
    SplitJoins(ticks);
    assert start + ticks == Join(high + High(ticks), Low(ticks));
    JoinSplits(high + High(ticks), Low(ticks));
  }

  lemma WrappedIntervalIsShort(now: nat, product: nat)
    ensures (now + product % TWO_TO_THE_64 / 1000) % TWO_TO_THE_64 == now + product / 1000
       <==> product < TWO_TO_THE_64 && now + product / 1000 < TWO_TO_THE_64
  {
  }

  /** The comparand is the count plus the interval exactly when neither the product nor the sum overflows. */
  lemma IntervalExactly(now: nat, clock: nat, periodMs: nat)
    ensures IntervalEnd(now, clock, periodMs) == now + clock * periodMs / 1000
       <==> clock * periodMs < TWO_TO_THE_64 && now + clock * periodMs / 1000 < TWO_TO_THE_64
  {
    WrappedIntervalIsShort(now, clock * periodMs);
  }

  /** Short of 64-bit overflow the interval is never cut short and never stretched by more than the call itself. */
  lemma IntervalIsKept(entry: nat, now: nat, exit: nat, clock: nat, periodMs: nat)
    requires entry <= now <= exit
    requires clock * periodMs < TWO_TO_THE_64 && exit + clock * periodMs / 1000 < TWO_TO_THE_64
    ensures entry + clock * periodMs / 1000 <= IntervalEnd(now, clock, periodMs) <= exit + clock * periodMs / 1000
  {
  }
}
