/** Writing NOR flash through page-program commands (flash.c). */
module NorFlash {
  import DivMod

  /** A flash byte is the set of its bits that are 1, which makes programming an intersection. */
  newtype Bit = k: int | 0 <= k < 8

  type byte = set<Bit>

  const PAGE_SIZE: nat := 256
  const STACK_SIZE_FOR_FLASH_DATA: nat := 256
  const ERASED: byte := {0, 1, 2, 3, 4, 5, 6, 7}
  const CLEARED: byte := {}

  // ------------------------- the device

  /** `addr & (PAGE_SIZE - 1)` */
  function PageOffset(addr: nat): nat
  {
    addr % 256
  }

  predicate Pages(mem: seq<byte>)
  {
    PageOffset(|mem|) == 0
  }

  /** Byte `k` of a program command lands in the page of `addr`, wrapping at its end. */
  function Target(addr: nat, k: nat): nat
  {
    addr / 256 * 256 + (addr + k) % 256
  }

  lemma PageFits(mem: seq<byte>, addr: nat)
    requires Pages(mem) && addr < |mem|
    ensures addr - PageOffset(addr) + PAGE_SIZE <= |mem|
  {
    DivMod.SameBlock(addr, |mem|, PAGE_SIZE);
  }

  /** `ns` bytes are left before page number `next` begins. */
  predicate Room(addr: nat, ns: nat, next: nat)
  {
    0 < ns <= 256 && addr + ns == 256 * next
  }

  lemma RoomLeft(addr: nat) returns (next: nat)
    ensures Room(addr, PAGE_SIZE - PageOffset(addr), next)
  {
    next := addr / 256 + 1;
  }

  lemma RoomIsRest(addr: nat, ns: nat, next: nat)
    requires Room(addr, ns, next)
    ensures PageOffset(addr) == PAGE_SIZE - ns
  {
  }

  /** The bits the first `n` bytes of a program command leave set at address `i`: the AND of all that land there. */
  ghost function Mask(addr: nat, data: seq<byte>, n: nat, i: nat): byte
    requires n <= |data|
  {
    if n == 0 then ERASED
    else Mask(addr, data, n - 1, i) * (if Target(addr, n - 1) == i then data[n - 1] else ERASED)
  }

  /** A sequence given element by element. */
  ghost function Tabulate(n: nat, f: nat -> byte): (s: seq<byte>)
    ensures |s| == n && forall i :: 0 <= i < n ==> s[i] == f(i)
  {
    seq(n, i requires 0 <= i => f(i))
  }

  /** `mem'` is `mem` with some bits cleared, as one program command clears them. */
  ghost predicate IsProgrammed(mem: seq<byte>, addr: nat, data: seq<byte>, mem': seq<byte>)
  {
    |mem'| == |mem| && forall i {:trigger mem'[i]} :: 0 <= i < |mem| ==> mem'[i] == mem[i] * Mask(addr, data, |data|, i)
  }

  lemma ProgrammedExists(mem: seq<byte>, addr: nat, data: seq<byte>)
    ensures exists mem' :: IsProgrammed(mem, addr, data, mem')
  {
    var mem' := Tabulate(|mem|, (i: nat) => if i < |mem| then mem[i] * Mask(addr, data, |data|, i) else CLEARED);
    assert IsProgrammed(mem, addr, data, mem');
  }

  ghost function Programmed(mem: seq<byte>, addr: nat, data: seq<byte>): (mem': seq<byte>)
    ensures IsProgrammed(mem, addr, data, mem')
  {
    ProgrammedExists(mem, addr, data);
    var mem' :| IsProgrammed(mem, addr, data, mem');
    mem'
  }

  /** The byte-wise meaning of a write: old AND data in the target range, nothing else touched. */
  ghost predicate IsWritten(mem: seq<byte>, addr: nat, data: seq<byte>, mem': seq<byte>)
  {
    |mem'| == |mem| &&
    forall i {:trigger mem'[i]} :: 0 <= i < |mem| ==>
      mem'[i] == if addr <= i < addr + |data| then mem[i] * data[i - addr] else mem[i]
  }

  lemma {:induction false} InPageMask(addr: nat, ns: nat, next: nat, data: seq<byte>, n: nat, i: nat)
    requires Room(addr, ns, next) && n <= |data| <= ns
    ensures Mask(addr, data, n, i) == if addr <= i < addr + n then data[i - addr] else ERASED
  {
    if n != 0 {
      InPageMask(addr, ns, next, data, n - 1, i);
      TargetInRoom(addr, ns, next, n - 1);
      AllOnesIsNeutral(Mask(addr, data, n - 1, i));
      AllOnesIsNeutral(data[n - 1]);
    }
  }

  lemma AllOnesIsNeutral(b: byte)
    ensures ERASED * b == b && b * ERASED == b
  {
  }

  lemma TargetInRoom(addr: nat, ns: nat, next: nat, k: nat)
    requires Room(addr, ns, next) && k < ns
    ensures Target(addr, k) == addr + k
  {
    RoomIsRest(addr, ns, next);
  }

  /** A command that stays in its page does what it says. */
  lemma InPageCommand(mem: seq<byte>, addr: nat, ns: nat, next: nat, data: seq<byte>, mem': seq<byte>)
    requires Room(addr, ns, next) && |data| <= ns && IsProgrammed(mem, addr, data, mem')
    ensures IsWritten(mem, addr, data, mem')
  {
    forall i | 0 <= i < |mem|
      ensures mem'[i] == if addr <= i < addr + |data| then mem[i] * data[i - addr] else mem[i]
    {
      InPageMask(addr, ns, next, data, |data|, i);
      AllOnesIsNeutral(mem[i]);
    }
  }

  /** No command reaches outside the page it is addressed to. */
  lemma {:induction false} OutsidePageUntouched(addr: nat, data: seq<byte>, n: nat, i: nat)
    requires n <= |data|
    requires i < addr - PageOffset(addr) || addr - PageOffset(addr) + PAGE_SIZE <= i
    ensures Mask(addr, data, n, i) == ERASED
  {
    if n != 0 {
      OutsidePageUntouched(addr, data, n - 1, i);
      AllOnesIsNeutral(ERASED);
    }
  }

  /** Why a write must be split: sent as one command, it is right for every content exactly when it stays in its page.
      */
  lemma SingleCommandIffInPage(size: nat, addr: nat, len: nat)
    requires addr + len <= size
    ensures (forall mem: seq<byte>, data: seq<byte> :: |mem| == size && |data| == len ==>
               IsWritten(mem, addr, data, Programmed(mem, addr, data)))
            <==> PageOffset(addr) + len <= PAGE_SIZE
  {
    if PageOffset(addr) + len <= PAGE_SIZE {
      forall mem: seq<byte>, data: seq<byte> | |mem| == size && |data| == len
        ensures IsWritten(mem, addr, data, Programmed(mem, addr, data))
      {
        var next := RoomLeft(addr);
        InPageCommand(mem, addr, PAGE_SIZE - PageOffset(addr), next, data, Programmed(mem, addr, data));
      }
    } else {
      var mem := Tabulate(size, _ => ERASED);
      var data := Tabulate(len, _ => CLEARED);
      var i := addr - PageOffset(addr) + PAGE_SIZE;
      OutsidePageUntouched(addr, data, len, i);
      assert Programmed(mem, addr, data)[i] == ERASED * ERASED;
      AllOnesIsNeutral(ERASED);
      assert data[i - addr] == CLEARED;
    }
  }

  // ------------------------- the loop as a function

  /** Where the bytes come from: a RAM buffer, or the flash array itself; FlashCopy reads that through the data cache. */
  datatype Source = Ram(bytes: seq<byte>, at: nat) | InFlash(at: nat)

  predicate Available(src: Source, size: nat, len: nat)
  {
    src.at + len <= if src.Ram? then |src.bytes| else size
  }

  /** The bytes the source holds now. */
  ghost predicate IsFetched(mem: seq<byte>, src: Source, data: seq<byte>)
    requires Available(src, |mem|, |data|)
  {
    forall k {:trigger data[k]} :: 0 <= k < |data| ==>
      data[k] == if src.Ram? then src.bytes[src.at + k] else mem[src.at + k]
  }

  function Slice(from: seq<byte>, at: nat, n: nat): (data: seq<byte>)
    requires at + n <= |from|
    ensures |data| == n && forall k {:trigger data[k]} :: 0 <= k < n ==> data[k] == from[at + k]
  {
    seq(n, k requires 0 <= k < n => from[at + k])
  }

  lemma FetchExists(mem: seq<byte>, src: Source, n: nat)
    requires Available(src, |mem|, n)
    ensures exists data :: |data| == n && IsFetched(mem, src, data)
  {
    var data := if src.Ram? then Slice(src.bytes, src.at, n) else Slice(mem, src.at, n);
    assert IsFetched(mem, src, data);
  }

  ghost function Fetch(mem: seq<byte>, src: Source, n: nat): (data: seq<byte>)
    requires Available(src, |mem|, n)
    ensures |data| == n && IsFetched(mem, src, data)
  {
    FetchExists(mem, src, n);
    var data :| |data| == n && IsFetched(mem, src, data);
    data
  }

  /** `buf += n` */
  function Advance(src: Source, n: nat): Source
  {
    src.(at := src.at + n)
  }

  /** What fits in the rest of the page, and is still wanted. */
  function ChunkLength(len: nat, ns: nat): nat
  {
    if len > ns then ns else len
  }

  /** The memory the loop leaves, each chunk being fetched only when its turn comes. */
  ghost function ChunkWrites(mem: seq<byte>, addr: nat, src: Source, len: nat, ns: nat): (mem': seq<byte>)
    requires addr + len <= |mem| && Available(src, |mem|, len) && 0 < ns
    ensures |mem'| == |mem|
    decreases len
  {
    if len == 0 then mem
    else
      var nw := ChunkLength(len, ns);
      ChunkWrites(Programmed(mem, addr, Fetch(mem, src, nw)), addr + nw, Advance(src, nw), len - nw, PAGE_SIZE)
  }

  datatype Command = Command(addr: nat, len: nat)

  /** The program commands the loop issues. */
  function Chunks(addr: nat, len: nat, ns: nat): seq<Command>
    requires 0 < ns
    decreases len
  {
    if len == 0 then []
    else
      var nw := ChunkLength(len, ns);
      [Command(addr, nw)] + Chunks(addr + nw, len - nw, PAGE_SIZE)
  }

  /** The memory and the command log a write is heading for. */
  datatype Goal = Goal(mem: seq<byte>, commands: seq<Command>)

  ghost predicate Leads(mem: seq<byte>, commands: seq<Command>, addr: nat, src: Source, len: nat, ns: nat, goal: Goal)
  {
    && addr + len <= |mem| && Available(src, |mem|, len) && 0 < ns
    && goal == Goal(ChunkWrites(mem, addr, src, len, ns), commands + Chunks(addr, len, ns))
  }

  /** One chunk brings a write closer to the same goal. */
  lemma {:induction false} LeadsStep(mem: seq<byte>, commands: seq<Command>, addr: nat, src: Source, len: nat, ns: nat,
                                     goal: Goal)
    requires Leads(mem, commands, addr, src, len, ns, goal) && len > 0
    ensures var nw := ChunkLength(len, ns);
            && Available(src, |mem|, nw)
            && Leads(Programmed(mem, addr, Fetch(mem, src, nw)), commands + [Command(addr, nw)],
                     addr + nw, Advance(src, nw), len - nw, PAGE_SIZE, goal)
  {
    var nw := ChunkLength(len, ns);
    assert commands + Chunks(addr, len, ns) ==
           commands + [Command(addr, nw)] + Chunks(addr + nw, len - nw, PAGE_SIZE);
  }

  // ------------------------- the loop

  class NorDevice {
    const mem: array<byte>
    ghost var commands: seq<Command>

    constructor (size: nat)
      ensures fresh(mem) && mem.Length == size && commands == []
      ensures forall i :: 0 <= i < mem.Length ==> mem[i] == ERASED
    {
      mem := new byte[size];
      commands := [];
      new;
      for i := 0 to size
        invariant commands == []
        invariant forall k :: 0 <= k < i ==> mem[k] == ERASED
      {
        mem[i] := ERASED;
      }
    }

    /** One page-program command: the device's part, with its address wrap. */
    method Program(addr: nat, data: seq<byte>)
      requires Pages(mem[..]) && addr < mem.Length
      modifies mem, this`commands
      ensures mem[..] == Programmed(old(mem[..]), addr, data)
      ensures commands == old(commands) + [Command(addr, |data|)]
    {
      for k := 0 to |data|
        invariant forall i :: 0 <= i < mem.Length ==> mem[i] == old(mem[i]) * Mask(addr, data, k, i)
        invariant commands == old(commands)
      {
        PageFits(mem[..], addr);
        var t := Target(addr, k);
        mem[t] := mem[t] * data[k];
      }
      commands := commands + [Command(addr, |data|)];
    }

    /** An erase command clears the aligned block that holds `addr`. */
    method Erase(addr: nat, size: nat)
      requires size != 0 && mem.Length % size == 0 && addr < mem.Length
      modifies mem
      ensures addr - addr % size + size <= mem.Length
      ensures IsErased(old(mem[..]), addr - addr % size, size, mem[..])
    {
      DivMod.SameBlock(addr, mem.Length, size);
      var base := addr - addr % size;
      for i := base to base + size
        invariant forall k :: 0 <= k < mem.Length ==> mem[k] == if base <= k < i then ERASED else old(mem[k])
      {
        mem[i] := ERASED;
      }
    }

    method EraseSector(addr: nat)
      requires mem.Length % 0x1000 == 0 && addr < mem.Length && addr % 0x1000 == 0
      modifies mem
      ensures addr + 0x1000 <= mem.Length
      ensures IsErased(old(mem[..]), addr, 0x1000, mem[..])
    {
      Erase(addr, 0x1000);
    }

    method EraseBlock32k(addr: nat)
      requires mem.Length % 0x8000 == 0 && addr < mem.Length && addr % 0x8000 == 0
      modifies mem
      ensures addr + 0x8000 <= mem.Length
      ensures IsErased(old(mem[..]), addr, 0x8000, mem[..])
    {
      Erase(addr, 0x8000);
    }

    method EraseBlock64k(addr: nat)
      requires mem.Length % 0x1_0000 == 0 && addr < mem.Length && addr % 0x1_0000 == 0
      modifies mem
      ensures addr + 0x1_0000 <= mem.Length
      ensures IsErased(old(mem[..]), addr, 0x1_0000, mem[..])
    {
      Erase(addr, 0x1_0000);
    }

    /** One round: a source in flash is first staged in a stack buffer. */
    method WriteChunk(addr: nat, buf: Source, nw: nat)
      requires Pages(mem[..]) && addr < mem.Length && nw <= STACK_SIZE_FOR_FLASH_DATA
      requires Available(buf, mem.Length, nw)
      modifies mem, this`commands
      ensures mem[..] == Programmed(old(mem[..]), addr, Fetch(old(mem[..]), buf, nw))
      ensures commands == old(commands) + [Command(addr, nw)]
    {
      var data: seq<byte>;
      if buf.InFlash? {
        // The source stalls here on a chunk larger than its stack buffer; there is none.
        data := Slice(mem[..], buf.at, nw);
      } else {
        data := Slice(buf.bytes, buf.at, nw);
      }
      assert data == Fetch(mem[..], buf, nw);
      Program(addr, data);
    }

    /** The write loop. */
    method Write(addr0: nat, len0: nat, buf0: Source)
      requires Pages(mem[..]) && addr0 + len0 <= mem.Length && Available(buf0, mem.Length, len0)
      modifies mem, this`commands
      ensures mem[..] == ChunkWrites(old(mem[..]), addr0, buf0, len0, PAGE_SIZE - PageOffset(addr0))
      ensures commands == old(commands) + Chunks(addr0, len0, PAGE_SIZE - PageOffset(addr0))
      ensures Unaffected(addr0, buf0, len0, PAGE_SIZE - PageOffset(addr0)) ==>
                IsWritten(old(mem[..]), addr0, Fetch(old(mem[..]), buf0, len0), mem[..])
    {
      WriteIsBytewise(mem[..], addr0, buf0, len0);
      var addr: nat, len: nat, buf := addr0, len0, buf0;
      var ns: nat := PAGE_SIZE - PageOffset(addr);
      ghost var goal := Goal(ChunkWrites(mem[..], addr, buf, len, ns), commands + Chunks(addr, len, ns));
      while len > 0
        invariant ns <= PAGE_SIZE && Leads(mem[..], commands, addr, buf, len, ns, goal)
      {
        var nw: nat := if len > ns then ns else len;
        LeadsStep(mem[..], commands, addr, buf, len, ns, goal);
        WriteChunk(addr, buf, nw);
        ns := PAGE_SIZE;
        addr, buf, len := addr + nw, Advance(buf, nw), len - nw;
      }
    }
  }

  // ------------------------- what the loop achieves

  /** `mem'` is `mem` with one block erased. */
  ghost predicate IsErased(mem: seq<byte>, base: nat, size: nat, mem': seq<byte>)
  {
    |mem'| == |mem| &&
    forall i {:trigger mem'[i]} :: 0 <= i < |mem| ==> mem'[i] == if base <= i < base + size then ERASED else mem[i]
  }

  /** The commands are back to back from `addr` on, and none crosses a page. */
  ghost predicate Tiles(commands: seq<Command>, addr: nat, len: nat)
  {
    if commands == [] then len == 0
    else
      var c := commands[0];
      && c.addr == addr && 0 < c.len <= len && PageOffset(addr) + c.len <= PAGE_SIZE
      && (c.len < len ==> PageOffset(addr + c.len) == 0)
      && Tiles(commands[1..], addr + c.len, len - c.len)
  }

  lemma {:induction false} ChunksTile(addr: nat, len: nat, ns: nat, next: nat)
    requires Room(addr, ns, next)
    ensures Tiles(Chunks(addr, len, ns), addr, len)
    decreases len
  {
    RoomIsRest(addr, ns, next);
    if len > 0 {
      var nw := ChunkLength(len, ns);
      assert Chunks(addr, len, ns)[1..] == Chunks(addr + nw, len - nw, PAGE_SIZE);
      if len > ns {
        RoomIsRest(addr + nw, PAGE_SIZE, next + 1);
        ChunksTile(addr + nw, len - nw, PAGE_SIZE, next + 1);
      }
    }
  }

  /** The source is RAM, or flash that no earlier chunk has changed by the time it is fetched. */
  predicate Unaffected(addr: nat, src: Source, len: nat, ns: nat)
  {
    src.Ram? || src.at >= addr || src.at + len <= addr || len <= ns
  }

  lemma WrittenTwice(mem: seq<byte>, addr: nat, d1: seq<byte>, mem1: seq<byte>, d2: seq<byte>, mem2: seq<byte>, d: seq<byte>)
    requires IsWritten(mem, addr, d1, mem1) && IsWritten(mem1, addr + |d1|, d2, mem2)
    requires |d| == |d1| + |d2|
    requires forall k {:trigger d[k]} :: 0 <= k < |d| ==> d[k] == if k < |d1| then d1[k] else d2[k - |d1|]
    ensures IsWritten(mem, addr, d, mem2)
  {
    forall i | 0 <= i < |mem|
      ensures mem2[i] == if addr <= i < addr + |d| then mem[i] * d[i - addr] else mem[i]
    {
      assert mem1[i] == if addr <= i < addr + |d1| then mem[i] * d1[i - addr] else mem[i];
    }
  }

  lemma FetchRest(mem: seq<byte>, addr: nat, d1: seq<byte>, mem1: seq<byte>, src: Source, len: nat, ns: nat)
    requires Available(src, |mem|, len) && |d1| == ChunkLength(len, ns) && IsWritten(mem, addr, d1, mem1)
    requires Unaffected(addr, src, len, ns)
    ensures var d, rest := Fetch(mem, src, len), Fetch(mem1, Advance(src, |d1|), len - |d1|);
            forall k {:trigger d[k]} :: 0 <= k < len ==> d[k] == if k < |d1| then Fetch(mem, src, |d1|)[k] else rest[k - |d1|]
  {
  }

  lemma StillUnaffected(addr: nat, src: Source, len: nat, ns: nat, nw: nat)
    requires Unaffected(addr, src, len, ns) && nw == ChunkLength(len, ns)
    ensures Unaffected(addr + nw, Advance(src, nw), len - nw, PAGE_SIZE)
  {
  }

  /** For such a source the loop is the byte-wise write of the bytes the source held before the call. */
  lemma {:induction false} ChunkWritesIsWritten(mem: seq<byte>, addr: nat, src: Source, len: nat, ns: nat, next: nat)
    requires addr + len <= |mem| && Available(src, |mem|, len)
    requires Room(addr, ns, next) && Unaffected(addr, src, len, ns)
    ensures IsWritten(mem, addr, Fetch(mem, src, len), ChunkWrites(mem, addr, src, len, ns))
    decreases len
  {
    if len > 0 {
      var nw := ChunkLength(len, ns);
      var d1, rest := Fetch(mem, src, nw), Advance(src, nw);
      var mem1 := Programmed(mem, addr, d1);
      InPageCommand(mem, addr, ns, next, d1, mem1);
      FetchRest(mem, addr, d1, mem1, src, len, ns);
      StillUnaffected(addr, src, len, ns, nw);
      if len > ns {
        ChunkWritesIsWritten(mem1, addr + nw, rest, len - nw, PAGE_SIZE, next + 1);
      }
      var d2 := Fetch(mem1, rest, len - nw);
      WrittenTwice(mem, addr, d1, mem1, d2, ChunkWrites(mem1, addr + nw, rest, len - nw, PAGE_SIZE), Fetch(mem, src, len));
    }
  }

  /** The two facts together, for the room `flash_write` computes. */
  lemma WriteIsBytewise(mem: seq<byte>, addr: nat, src: Source, len: nat)
    requires addr + len <= |mem| && Available(src, |mem|, len)
    ensures Tiles(Chunks(addr, len, PAGE_SIZE - PageOffset(addr)), addr, len)
    ensures Unaffected(addr, src, len, PAGE_SIZE - PageOffset(addr)) ==>
              IsWritten(mem, addr, Fetch(mem, src, len), ChunkWrites(mem, addr, src, len, PAGE_SIZE - PageOffset(addr)))
  {
    var ns := PAGE_SIZE - PageOffset(addr);
    var next := RoomLeft(addr);
    ChunksTile(addr, len, ns, next);
    if Unaffected(addr, src, len, ns) {
      ChunkWritesIsWritten(mem, addr, src, len, ns, next);
    }
  }

  /** A cleared byte stays cleared. */
  lemma {:induction false} ZeroStays(mem: seq<byte>, addr: nat, src: Source, len: nat, ns: nat, i: nat)
    requires addr + len <= |mem| && Available(src, |mem|, len) && 0 < ns
    requires i < |mem| && mem[i] == CLEARED
    ensures ChunkWrites(mem, addr, src, len, ns)[i] == CLEARED
    decreases len
  {
    if len > 0 {
      var nw := ChunkLength(len, ns);
      ZeroStays(Programmed(mem, addr, Fetch(mem, src, nw)), addr + nw, Advance(src, nw), len - nw, PAGE_SIZE, i);
    }
  }

  /** A cleared source byte clears its target. */
  lemma {:induction false} ZeroIsCopied(mem: seq<byte>, addr: nat, at: nat, len: nat, ns: nat, next: nat, j: nat)
    requires addr + len <= |mem| && at + len <= |mem| && Room(addr, ns, next)
    requires j < len && mem[at + j] == CLEARED
    ensures ChunkWrites(mem, addr, InFlash(at), len, ns)[addr + j] == CLEARED
    decreases len
  {
    var nw := ChunkLength(len, ns);
    var data := Fetch(mem, InFlash(at), nw);
    var mem1 := Programmed(mem, addr, data);
    if j < nw {
      InPageMask(addr, ns, next, data, nw, addr + j);
      assert mem1[addr + j] == CLEARED;
      ZeroStays(mem1, addr + nw, InFlash(at + nw), len - nw, PAGE_SIZE, addr + j);
    } else {
      assert mem1[at + j] == CLEARED;
      ZeroIsCopied(mem1, addr + nw, at + nw, len - nw, PAGE_SIZE, next + 1, j - nw);
    }
  }

  /** Otherwise some content is copied wrongly: a byte cleared by an earlier chunk is fetched by a later one. */
  lemma {:induction false} OverlapCorrupts(addr: nat, at: nat, len: nat, ns: nat, next: nat, k: nat, mem: seq<byte>)
    requires addr + len <= |mem| && at + len <= |mem| && Room(addr, ns, next)
    requires at < addr && ns <= k < len && addr - at <= k < addr - at + ns
    requires mem[at + k - (addr - at)] == CLEARED && mem[addr + k] == ERASED && mem[at + k] == ERASED
    ensures !IsWritten(mem, addr, Fetch(mem, InFlash(at), len), ChunkWrites(mem, addr, InFlash(at), len, ns))
  {
    var data := Fetch(mem, InFlash(at), ns);
    var mem1 := Programmed(mem, addr, data);
    InPageMask(addr, ns, next, data, ns, at + k);
    assert mem1[at + k] == CLEARED;
    ZeroIsCopied(mem1, addr + ns, at + ns, len - ns, PAGE_SIZE, next + 1, k - ns);
    assert ChunkWrites(mem, addr, InFlash(at), len, ns)[addr + k] == CLEARED;
    AllOnesIsNeutral(ERASED);
  }

  /** Exactly when writing from flash to flash copies what was there before the call, whatever the content. */
  lemma FlashToFlashExactly(size: nat, addr: nat, at: nat, len: nat, ns: nat, next: nat)
    requires addr + len <= size && at + len <= size && Room(addr, ns, next)
    ensures (forall mem: seq<byte> :: |mem| == size ==>
               IsWritten(mem, addr, Fetch(mem, InFlash(at), len), ChunkWrites(mem, addr, InFlash(at), len, ns)))
            <==> Unaffected(addr, InFlash(at), len, ns)
  {
    if Unaffected(addr, InFlash(at), len, ns) {
      forall mem: seq<byte> | |mem| == size
        ensures IsWritten(mem, addr, Fetch(mem, InFlash(at), len), ChunkWrites(mem, addr, InFlash(at), len, ns))
      {
        ChunkWritesIsWritten(mem, addr, InFlash(at), len, ns, next);
      }
    } else {
      var d := addr - at;
      var k := if d >= ns then d else ns;
      var mem := Tabulate(size, (i: nat) => if i == at + k - d then CLEARED else ERASED);
      OverlapCorrupts(addr, at, len, ns, next, k, mem);
    }
  }

  /** Into an erased block the data itself is written, and everything outside the block is as it was. */
  lemma ErasedThenWritten(mem: seq<byte>, base: nat, size: nat, mem1: seq<byte>, addr: nat, data: seq<byte>, mem2: seq<byte>)
    requires base + size <= |mem| && base <= addr && addr + |data| <= base + size
    requires IsErased(mem, base, size, mem1) && IsWritten(mem1, addr, data, mem2)
    ensures mem2[addr..addr + |data|] == data
    ensures mem2[..base] == mem[..base] && mem2[base + size..] == mem[base + size..]
  {
    forall i | 0 <= i < |mem|
      ensures mem2[i] == if addr <= i < addr + |data| then data[i - addr] else mem1[i]
    {
      if addr <= i < addr + |data| {
        AllOnesIsNeutral(data[i - addr]);
      }
    }
  }
}
