/** Cache maintenance by address range (cache.c), and what it must achieve beside flash writes. */
module Cache {
  import opened NorFlash
  import DivMod

  const LINE_SIZE: nat := 32
  const LINES: nat := 128

  // ------------------------- addresses

  /** The line number of an address: its tag and index together. */
  function LineOf(addr: nat): nat
  {
    addr / 32
  }

  function IndexOf(line: nat): nat
  {
    line % 128
  }

  function TagOf(line: nat): nat
  {
    line / 128
  }

  /** `cache_line_t`: the `way` field is one bit wide, so only the lowest tag bit survives. */
  datatype LineAddress = LineAddress(word: nat, index: nat, way: nat)

  function CacheGetLine(addr: nat): LineAddress
  {
    LineAddress(addr % 32, addr / 32 % 128, addr / 4096 % 0x10_0000 % 2)
  }

  lemma LineAddressIsLine(addr: nat)
    ensures CacheGetLine(addr).index == IndexOf(LineOf(addr))
    ensures addr / 4096 == TagOf(LineOf(addr))
  {
    DivMod.NestedQuotient(addr, 32, 128);
  }

  /** A line number is its tag and its index. */
  lemma LineSplits(line: nat)
    ensures line == 128 * TagOf(line) + IndexOf(line)
  {
  }

  // ------------------------- which indices a range touches, and which are invalidated

  /** Some address in `[start, end]` falls on this index. */
  ghost predicate Touched(start: nat, end: nat, index: nat)
  {
    exists line :: LineOf(start) <= line <= LineOf(end) && IndexOf(line) == index
  }

  /** The indices `dcache_invalidate` goes through. */
  predicate Swept(start: nat, end: nat, index: nat)
  {
    IndexOf(LineOf(start)) <= index <= IndexOf(LineOf(end))
  }

  ghost predicate Covers(start: nat, end: nat)
  {
    forall index :: Touched(start, end, index) ==> Swept(start, end, index)
  }

  /** The range lies in one 4 KB window, or runs from the first index of a window to the last of another. */
  predicate SweepFits(start: nat, end: nat)
  {
    || TagOf(LineOf(start)) == TagOf(LineOf(end))
    || (IndexOf(LineOf(start)) == 0 && IndexOf(LineOf(end)) == 127)
  }

  /** `dcache_invalidate` covers what the range touches exactly then. */
  lemma CoversExactly(start: nat, end: nat)
    requires start <= end
    ensures Covers(start, end) <==> SweepFits(start, end)
  {
    var s, e := LineOf(start), LineOf(end);
    LineOrder(start, end);
    LineSplits(s);
    LineSplits(e);
    if SweepFits(start, end) {
      forall index | Touched(start, end, index)
        ensures Swept(start, end, index)
      {
        var line :| s <= line <= e && IndexOf(line) == index;
        LineSplits(line);
        SameWindow(s, line, e);
      }
    } else {
      assert Touched(start, end, IndexOf(s));
      assert Touched(start, end, IndexOf(e));
      var last := 128 * TagOf(s) + 127;
      var first := 128 * TagOf(e);
      LineAt(TagOf(s), 127);
      LineAt(TagOf(e), 0);
      WindowsApart(s, e);
      assert Touched(start, end, IndexOf(last));
      assert Touched(start, end, IndexOf(first));
    }
  }

  /** Every index it goes through is touched: no more is invalidated than the range needs. */
  lemma SweptIsTouched(start: nat, end: nat, index: nat)
    requires start <= end && Swept(start, end, index)
    ensures Touched(start, end, index)
  {
    var s, e := LineOf(start), LineOf(end);
    LineOrder(start, end);
    LineSplits(s);
    LineSplits(e);
    var line := 128 * TagOf(s) + index;
    LineAt(TagOf(s), index);
    assert s <= line <= e && IndexOf(line) == index;
  }

  lemma LineOrder(a: nat, b: nat)
    requires a <= b
    ensures LineOf(a) <= LineOf(b)
  {
  }

  lemma LineAt(tag: nat, index: nat)
    requires index < 128
    ensures TagOf(128 * tag + index) == tag && IndexOf(128 * tag + index) == index
  {
  }

  lemma SameWindow(s: nat, line: nat, e: nat)
    requires s <= line <= e
    ensures TagOf(s) == TagOf(e) ==> TagOf(line) == TagOf(s)
  {
  }

  lemma WindowsApart(s: nat, e: nat)
    requires s <= e && TagOf(s) != TagOf(e)
    ensures TagOf(s) < TagOf(e)
    ensures s <= 128 * TagOf(s) + 127 < 128 * TagOf(e) <= e
  {
  }

  // ------------------------- the data cache beside flash

  /** Where flash appears in the address space. */
  const FLASH_ADDR_BASE: nat := 0x2000_0000

  datatype Line = Invalid | Valid(tag: nat, bytes: seq<byte>)

  /** Flash, and a direct-mapped cache of 128 lines of 32 bytes in front of it. */
  datatype Machine = Machine(mem: seq<byte>, lines: seq<Line>)

  predicate InWindow(size: nat, p: nat)
  {
    FLASH_ADDR_BASE <= p < FLASH_ADDR_BASE + size
  }

  function FlashByte(mem: seq<byte>, p: nat): byte
    requires InWindow(|mem|, p)
  {
    mem[p - FLASH_ADDR_BASE]
  }

  /** The cached bytes of a line are those of flash. */
  ghost predicate SameAsFlash(mem: seq<byte>, line: nat, bytes: seq<byte>)
  {
    && |bytes| == LINE_SIZE
    && InWindow(|mem|, 32 * line) && InWindow(|mem|, 32 * line + 31)
    && forall k {:trigger bytes[k]} :: 0 <= k < LINE_SIZE ==> bytes[k] == FlashByte(mem, 32 * line + k)
  }

  ghost predicate AgreesAt(m: Machine, index: nat)
    requires |m.lines| == LINES && index < LINES
  {
    m.lines[index].Valid? ==> SameAsFlash(m.mem, 128 * m.lines[index].tag + index, m.lines[index].bytes)
  }

  ghost predicate Coherent(m: Machine)
  {
    && |m.lines| == LINES && |m.mem| % 32 == 0
    && forall index :: 0 <= index < LINES ==> AgreesAt(m, index)
  }

  predicate Hit(m: Machine, p: nat)
    requires |m.lines| == LINES
  {
    var l := m.lines[IndexOf(LineOf(p))];
    l.Valid? && l.tag == TagOf(LineOf(p)) && |l.bytes| == LINE_SIZE
  }

  /** What a pointer read returns. */
  function CachedByte(m: Machine, p: nat): byte
    requires |m.lines| == LINES && InWindow(|m.mem|, p)
  {
    if Hit(m, p) then m.lines[IndexOf(LineOf(p))].bytes[p % 32] else FlashByte(m.mem, p)
  }

  lemma LineInWindow(size: nat, p: nat)
    requires size % 32 == 0 && InWindow(size, p)
    ensures InWindow(size, 32 * LineOf(p)) && InWindow(size, 32 * LineOf(p) + 31)
    ensures p == 32 * LineOf(p) + p % 32
  {
  }

  /** And what it leaves: a missing line is filled from flash. */
  function AfterRead(m: Machine, p: nat): Machine
    requires |m.lines| == LINES && |m.mem| % 32 == 0 && InWindow(|m.mem|, p)
  {
    if Hit(m, p) then m
    else
      LineInWindow(|m.mem|, p);
      var line := LineOf(p);
      m.(lines := m.lines[IndexOf(line) := Valid(TagOf(line), Slice(m.mem, 32 * line - FLASH_ADDR_BASE, 32))])
  }

  /** While every line agrees, a read returns the flash byte, and every line still agrees. */
  lemma ReadIsFlash(m: Machine, p: nat)
    requires Coherent(m) && InWindow(|m.mem|, p)
    ensures CachedByte(m, p) == FlashByte(m.mem, p)
    ensures Coherent(AfterRead(m, p))
  {
    var line := LineOf(p);
    var index := IndexOf(line);
    LineInWindow(|m.mem|, p);
    LineSplits(line);
    assert AgreesAt(m, index);
    if !Hit(m, p) {
      var m' := AfterRead(m, p);
      forall i | 0 <= i < LINES
        ensures AgreesAt(m', i)
      {
        assert AgreesAt(m, i);
      }
    }
  }

  // ------------------------- writing behind the cache

  ghost predicate ChangedOnlyIn(mem: seq<byte>, mem': seq<byte>, start: nat, end: nat)
  {
    |mem'| == |mem| &&
    forall p: nat :: InWindow(|mem|, p) && !(start <= p <= end) ==> FlashByte(mem', p) == FlashByte(mem, p)
  }

  /** The tags in the swept range are invalidated, the others untouched. */
  ghost predicate IsInvalidated(lines: seq<Line>, start: nat, end: nat, lines': seq<Line>)
  {
    |lines'| == |lines| &&
    forall i {:trigger lines'[i]} :: 0 <= i < |lines| ==>
      lines'[i] == if Swept(start, end, i) then Invalid else lines[i]
  }

  /** A line outside the touched indices keeps its flash bytes. */
  lemma UntouchedLine(mem: seq<byte>, mem': seq<byte>, start: nat, end: nat, line: nat, bytes: seq<byte>)
    requires ChangedOnlyIn(mem, mem', start, end) && SameAsFlash(mem, line, bytes)
    requires !Touched(start, end, IndexOf(line))
    ensures SameAsFlash(mem', line, bytes)
  {
    assert !(LineOf(start) <= line <= LineOf(end));
    forall k | 0 <= k < LINE_SIZE
      ensures bytes[k] == FlashByte(mem', 32 * line + k)
    {
      AddressInLine(start, line, k);
      AddressInLine(end, line, k);
      assert FlashByte(mem', 32 * line + k) == FlashByte(mem, 32 * line + k);
    }
  }

  lemma AddressInLine(p: nat, line: nat, k: nat)
    requires k < 32
    ensures p < 32 * line ==> LineOf(p) < line
    ensures 32 * line + k < p ==> line <= LineOf(p)
    ensures p <= 32 * line + k ==> LineOf(p) <= line
    ensures 32 * line + k <= p ==> line <= LineOf(p)
  {
  }

  /** Invalidating a sweep that covers the changed range restores agreement. */
  lemma CoveredSweepKeepsCoherence(m: Machine, mem': seq<byte>, lines': seq<Line>, start: nat, end: nat)
    requires Coherent(m) && Covers(start, end)
    requires ChangedOnlyIn(m.mem, mem', start, end) && IsInvalidated(m.lines, start, end, lines')
    ensures Coherent(Machine(mem', lines'))
  {
    forall i | 0 <= i < LINES
      ensures AgreesAt(Machine(mem', lines'), i)
    {
      assert AgreesAt(m, i);
      if lines'[i].Valid? {
        var line := 128 * lines'[i].tag + i;
        LineAt(lines'[i].tag, i);
        assert !Touched(start, end, i);
        UntouchedLine(m.mem, mem', start, end, line, lines'[i].bytes);
      }
    }
  }

  /** One flash write inside `[start, end]`, then the sweep over that range. */
  ghost predicate IsUpdate(m: Machine, start: nat, end: nat, addr: nat, data: seq<byte>, m': Machine)
  {
    && start <= FLASH_ADDR_BASE + addr && FLASH_ADDR_BASE + addr + |data| <= end + 1
    && addr + |data| <= |m.mem|
    && IsWritten(m.mem, addr, data, m'.mem) && IsInvalidated(m.lines, start, end, m'.lines)
  }

  lemma UpdateChangesOnlyRange(m: Machine, start: nat, end: nat, addr: nat, data: seq<byte>, m': Machine)
    requires IsUpdate(m, start, end, addr, data, m')
    ensures ChangedOnlyIn(m.mem, m'.mem, start, end)
  {
  }

  /** No update of this range can leave a stale line, whatever flash and the cache hold. */
  ghost predicate SweepIsSafe(size: nat, start: nat, end: nat)
  {
    forall m, addr, data, m' ::
      Coherent(m) && |m.mem| == size && IsUpdate(m, start, end, addr, data, m') ==> Coherent(m')
  }

  /** An index that is touched but not swept lets a read return what flash held before. */
  lemma StaleRead(size: nat, start: nat, end: nat, line: nat)
    returns (m: Machine, addr: nat, data: seq<byte>, m': Machine, p: nat)
    requires size % 32 == 0 && start <= end && InWindow(size, start) && InWindow(size, end)
    requires LineOf(start) <= line <= LineOf(end) && !Swept(start, end, IndexOf(line))
    ensures Coherent(m) && |m.mem| == size && IsUpdate(m, start, end, addr, data, m')
    ensures InWindow(size, p) && |m'.mem| == size && |m'.lines| == LINES
    ensures CachedByte(m', p) != FlashByte(m'.mem, p)
  {
    p := if 32 * line < start then start else 32 * line;
    LineBounds(start, end, line, p);
    LineInWindow(size, p);
    LineSplits(line);
    addr := p - FLASH_ADDR_BASE;
    data := [CLEARED];
    var index := IndexOf(line);
    var filled := Valid(TagOf(line), seq(LINE_SIZE, _ => ERASED));
    m := Machine(seq(size, _ => ERASED), seq(LINES, i => if i == index then filled else Invalid));
    m' := Machine(m.mem[addr := CLEARED], seq(LINES, i requires 0 <= i < LINES => if Swept(start, end, i) then Invalid else m.lines[i]));
    assert IsWritten(m.mem, addr, data, m'.mem);
    assert Coherent(m) by {
      forall i | 0 <= i < LINES
        ensures AgreesAt(m, i)
      {
        if i == index {
          assert SameAsFlash(m.mem, line, filled.bytes);
        }
      }
    }
    assert m'.lines[index] == filled;
    assert Hit(m', p);
    assert 0 in ERASED;
  }

  lemma LineBounds(start: nat, end: nat, line: nat, p: nat)
    requires start <= end && LineOf(start) <= line <= LineOf(end)
    requires p == if 32 * line < start then start else 32 * line
    ensures start <= p <= end && LineOf(p) == line
  {
  }

  /** `dcache_invalidate` over a range makes cached reads agree with flash after a write in it, in every state, exactly
      when the range stays in one 4 KB window or its line indices run from 0 to 127. */
  lemma SweepIsSafeExactly(size: nat, start: nat, end: nat)
    requires size % 32 == 0 && start <= end && InWindow(size, start) && InWindow(size, end)
    ensures SweepIsSafe(size, start, end) <==> SweepFits(start, end)
  {
    CoversExactly(start, end);
    if SweepFits(start, end) {
      forall m, addr, data, m' | Coherent(m) && |m.mem| == size && IsUpdate(m, start, end, addr, data, m')
        ensures Coherent(m')
      {
        UpdateChangesOnlyRange(m, start, end, addr, data, m');
        CoveredSweepKeepsCoherence(m, m'.mem, m'.lines, start, end);
        assert m' == Machine(m'.mem, m'.lines);
      }
    } else {
      var index :| Touched(start, end, index) && !Swept(start, end, index);
      var line :| LineOf(start) <= line <= LineOf(end) && IndexOf(line) == index;
      var m, addr, data, m', p := StaleRead(size, start, end, line);
      if Coherent(m') {
        ReadIsFlash(m', p);
      }
    }
  }

  // ------------------------- whole runs

  datatype Op = Read(p: nat, got: byte) | Update(start: nat, end: nat, addr: nat, data: seq<byte>)

  /** One step of a program that reads flash through the cache and updates it behind the cache. */
  ghost predicate Step(m: Machine, op: Op, m': Machine)
  {
    && |m.lines| == LINES && |m.mem| % 32 == 0
    && match op
       case Read(p, got) => InWindow(|m.mem|, p) && got == CachedByte(m, p) && m' == AfterRead(m, p)
       case Update(start, end, addr, data) =>
         start <= end && SweepFits(start, end) && IsUpdate(m, start, end, addr, data, m')
  }

  ghost predicate Run(states: seq<Machine>, ops: seq<Op>)
  {
    |states| == |ops| + 1 && forall k :: 0 <= k < |ops| ==> Step(states[k], ops[k], states[k + 1])
  }

  /** Over any run from a state in agreement, every read returns the byte flash holds at that moment. */
  lemma {:induction false} ReadsAreNeverStale(states: seq<Machine>, ops: seq<Op>, k: nat)
    requires Run(states, ops) && Coherent(states[0]) && k <= |ops|
    ensures Coherent(states[k])
    ensures k < |ops| && ops[k].Read? ==>
              InWindow(|states[k].mem|, ops[k].p) && ops[k].got == FlashByte(states[k].mem, ops[k].p)
  {
    if k > 0 {
      ReadsAreNeverStale(states, ops, k - 1);
      var m, op, m' := states[k - 1], ops[k - 1], states[k];
      assert Step(m, op, m');
      match op
      case Read(p, _) =>
        ReadIsFlash(m, p);
      case Update(start, end, addr, data) =>
        CoversExactly(start, end);
        UpdateChangesOnlyRange(m, start, end, addr, data, m');
        CoveredSweepKeepsCoherence(m, m'.mem, m'.lines, start, end);
        assert m' == Machine(m'.mem, m'.lines);
    }
    if k < |ops| && ops[k].Read? {
      assert Step(states[k], ops[k], states[k + 1]);
      ReadIsFlash(states[k], ops[k].p);
    }
  }

  // ------------------------- the code

  class DataCache {
    const flash: NorDevice
    const lines: array<Line>

    constructor (flash: NorDevice)
      requires flash.mem.Length % 256 == 0
      ensures this.flash == flash && fresh(lines) && Coherent(State())
    {
      this.flash := flash;
      lines := new Line[LINES](_ => Invalid);
      new;
      DivMod.CoarserResidue(flash.mem.Length, 8, 32);
      assert forall i :: 0 <= i < LINES ==> State().lines[i] == Invalid;
    }

    ghost function State(): Machine
      reads flash.mem, lines
    {
      Machine(flash.mem[..], lines[..])
    }

    /** A pointer read of flash. */
    method ReadByte(p: nat) returns (b: byte)
      requires lines.Length == LINES && flash.mem.Length % 32 == 0 && InWindow(flash.mem.Length, p)
      modifies lines
      ensures b == CachedByte(old(State()), p) && State() == AfterRead(old(State()), p)
    {
      var line := LineOf(p);
      var l := lines[IndexOf(line)];
      if l.Valid? && l.tag == TagOf(line) && |l.bytes| == LINE_SIZE {
        b := l.bytes[p % 32];
      } else {
        LineInWindow(flash.mem.Length, p);
        b := flash.mem[p - FLASH_ADDR_BASE];
        lines[IndexOf(line)] := Valid(TagOf(line), Slice(flash.mem[..], 32 * line - FLASH_ADDR_BASE, 32));
      }
    }

    /** One index-invalidate command. */
    method InvalidateIndex(index: nat)
      requires lines.Length == LINES && index < LINES
      modifies lines
      ensures lines[..] == old(lines[..])[index := Invalid]
    {
      lines[index] := Invalid;
    }

    /** The loop over the indices, as written: nothing happens when the range wraps past the last index. */
    method DcacheInvalidate(start: nat, end: nat)
      requires lines.Length == LINES
      modifies lines
      ensures IsInvalidated(old(lines[..]), start, end, lines[..])
      ensures start / 32 % 128 > end / 32 % 128 ==> lines[..] == old(lines[..])
      ensures forall i :: 0 <= i < LINES ==>
                lines[i] == if start / 32 % 128 <= i <= end / 32 % 128 then Invalid else old(lines[i])
    {
      var startAddr := CacheGetLine(start);
      var endAddr := CacheGetLine(end);
      startAddr := startAddr.(way := 0);
      LineAddressIsLine(start);
      LineAddressIsLine(end);
      var i := startAddr.index;
      while i <= endAddr.index
        invariant IndexOf(LineOf(start)) <= i <= LINES
        invariant i <= endAddr.index + 1 || i == IndexOf(LineOf(start))
        invariant forall k :: 0 <= k < LINES ==>
                    lines[k] == if IndexOf(LineOf(start)) <= k < i then Invalid else old(lines[k])
      {
        startAddr := startAddr.(index := i);
        InvalidateIndex(startAddr.index);
        i := i + 1;
      }
    }

    /** Flash is written behind the cache, and the written range invalidated. */
    method WriteAndInvalidate(addr: nat, data: seq<byte>)
      requires data != [] && addr + |data| <= flash.mem.Length && flash.mem.Length % 256 == 0
      requires lines.Length == LINES && Coherent(State())
      modifies flash.mem, flash`commands, lines
      ensures IsWritten(old(flash.mem[..]), addr, data, flash.mem[..])
      ensures SweepFits(FLASH_ADDR_BASE + addr, FLASH_ADDR_BASE + addr + |data| - 1) ==> Coherent(State())
    {
      ghost var m := State();
      var start, end := FLASH_ADDR_BASE + addr, FLASH_ADDR_BASE + addr + |data| - 1;
      flash.Write(addr, |data|, Ram(data, 0));
      assert Fetch(m.mem, Ram(data, 0), |data|) == data;
      DcacheInvalidate(start, end);
      assert IsUpdate(m, start, end, addr, data, State());
      if SweepFits(start, end) {
        CoversExactly(start, end);
        UpdateChangesOnlyRange(m, start, end, addr, data, State());
        CoveredSweepKeepsCoherence(m, State().mem, State().lines, start, end);
      }
    }
  }

  // ------------------------- the instruction cache

  /** What `icache_invalidate` hits: way 0 from the first index to the last, way 1 only at the last. */
  ghost predicate IcacheHits(start: nat, end: nat, way: nat, index: nat)
  {
    var s, e := IndexOf(LineOf(start)), IndexOf(LineOf(end));
    (way == 0 && s <= index <= e) || (way == 1 && s <= index == e)
  }

  class InstructionCache {
    /** The (way, index) pairs whose tag is valid. */
    var valid: set<(nat, nat)>

    constructor (valid: set<(nat, nat)>)
      ensures this.valid == valid
    {
      this.valid := valid;
    }

    method InvalidateIndex(way: nat, index: nat)
      modifies this
      ensures valid == old(valid) - {(way, index)}
    {
      valid := valid - {(way, index)};
    }

    /** The two nested loops, as written: the start index is overwritten and not restored for the second way. */
    method IcacheInvalidate(start: nat, end: nat)
      modifies this
      ensures forall way, index :: (way, index) in valid <==>
                (way, index) in old(valid) && !IcacheHits(start, end, way, index)
      ensures forall index :: (0, index) in valid <==>
                (0, index) in old(valid) && !(start / 32 % 128 <= index <= end / 32 % 128)
      ensures forall index :: (1, index) in valid <==>
                (1, index) in old(valid) && !(start / 32 % 128 <= index == end / 32 % 128)
    {
      var startAddr := CacheGetLine(start);
      var endAddr := CacheGetLine(end);
      LineAddressIsLine(start);
      LineAddressIsLine(end);
      ghost var s, e := IndexOf(LineOf(start)), IndexOf(LineOf(end));
      for j := 0 to 2
        invariant startAddr.index == if j > 0 && s <= e then e else s
        invariant forall way, index :: (way, index) in valid <==>
                    (way, index) in old(valid) && !(way < j && IcacheHits(start, end, way, index))
      {
        startAddr := startAddr.(way := j);
        var i := startAddr.index;
        ghost var from := i;
        ghost var before := valid;
        while i <= endAddr.index
          invariant from <= i && (i <= e + 1 || i == from)
          invariant startAddr.way == j && startAddr.index == if i == from then from else i - 1
          invariant forall way, index :: (way, index) in valid <==>
                      (way, index) in before && !(way == j && from <= index < i)
        {
          startAddr := startAddr.(index := i);
          InvalidateIndex(startAddr.way, startAddr.index);
          i := i + 1;
        }
      }
    }
  }

  /** Both ways of every touched index are hit. */
  ghost predicate IcacheCovers(start: nat, end: nat)
  {
    forall way, index :: way < 2 && Touched(start, end, index) ==> IcacheHits(start, end, way, index)
  }

  /** The two-way sweep covers the range exactly when the range stays in one line. */
  lemma IcacheCoversExactly(start: nat, end: nat)
    requires start <= end
    ensures IcacheCovers(start, end) <==> LineOf(start) == LineOf(end)
  {
    var s, e := LineOf(start), LineOf(end);
    LineOrder(start, end);
    assert Touched(start, end, IndexOf(s));
    if s != e {
      NextLineDiffers(s);
      assert Touched(start, end, IndexOf(s + 1));
      assert !(IcacheHits(start, end, 1, IndexOf(s)) && IcacheHits(start, end, 1, IndexOf(s + 1)));
    }
  }

  /** Every touched index is hit in this way. */
  ghost predicate WayCovers(start: nat, end: nat, way: nat)
  {
    forall index :: Touched(start, end, index) ==> IcacheHits(start, end, way, index)
  }

  /** Way 0 is covered exactly where the data cache is. */
  lemma WayZeroCoversExactly(start: nat, end: nat)
    requires start <= end
    ensures WayCovers(start, end, 0) <==> SweepFits(start, end)
  {
    CoversExactly(start, end);
    forall index: nat
      ensures IcacheHits(start, end, 0, index) <==> Swept(start, end, index)
    {
    }
    if WayCovers(start, end, 0) {
      forall index | Touched(start, end, index)
        ensures Swept(start, end, index)
      {
        assert IcacheHits(start, end, 0, index);
      }
    }
  }

  /** In way 1 a range that fits is hit at its last index and nowhere else. */
  lemma WayOneHitsTheLast(start: nat, end: nat, index: nat)
    requires start <= end && SweepFits(start, end) && Touched(start, end, index)
    ensures IcacheHits(start, end, 1, index) <==> index == IndexOf(LineOf(end))
  {
    LineOrder(start, end);
    LineSplits(LineOf(start));
    LineSplits(LineOf(end));
  }

  /** Nothing is hit that the range does not touch, and no third way. */
  lemma IcacheHitsAreTouched(start: nat, end: nat, way: nat, index: nat)
    requires start <= end && IcacheHits(start, end, way, index)
    ensures Touched(start, end, index) && way < 2
  {
    SweptIsTouched(start, end, index);
  }

  lemma NextLineDiffers(line: nat)
    ensures IndexOf(line + 1) != IndexOf(line)
  {
  }
}
