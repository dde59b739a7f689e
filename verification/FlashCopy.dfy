/** Writing flash from flash: the source is staged in a stack buffer by pointer reads, which go through the data cache (flash.c). */
module FlashCopy {
  import opened NorFlash
  import opened Cache

  // ------------------------- staging

  predicate Sane(m: Machine)
  {
    |m.lines| == LINES && |m.mem| % 32 == 0
  }

  /** The address of a flash offset. */
  function At(offset: nat): nat
  {
    FLASH_ADDR_BASE + offset
  }

  function Iterate<S>(step: S -> S, s: S, n: nat): S
    decreases n, s
  {
    if n == 0 then s else step(Iterate(step, s, n - 1))
  }

  lemma {:induction false} IterateKeeps<S(!new)>(step: S -> S, s: S, n: nat, inv: (S, nat) -> bool)
    requires inv(s, 0)
    requires forall t: S, k: nat {:trigger inv(t, k)} :: k < n && inv(t, k) ==> inv(step(t), k + 1)
    ensures inv(Iterate(step, s, n), n)
  {
    if n > 0 {
      IterateKeeps(step, s, n - 1, inv);
    }
  }

  /** The machine in the middle of a copy, and the stack buffer so far. */
  datatype Buffer = Buffer(m: Machine, data: seq<byte>)

  /** One pointer read of the copy that starts at flash offset `at`. */
  function ReadNext(b: Buffer, at: nat): Buffer
  {
    var p := At(at + |b.data|);
    if Sane(b.m) && InWindow(|b.m.mem|, p) then Buffer(AfterRead(b.m, p), b.data + [CachedByte(b.m, p)]) else b
  }

  function Reader(at: nat): Buffer -> Buffer
  {
    b => ReadNext(b, at)
  }

  predicate IsCopying(b: Buffer, k: nat, mem: seq<byte>)
  {
    Sane(b.m) && b.m.mem == mem && |b.data| == k
  }

  lemma IsCopyingOn(b: Buffer, k: nat, mem: seq<byte>, at: nat)
    requires IsCopying(b, k, mem) && at + k < |mem|
    ensures IsCopying(ReadNext(b, at), k + 1, mem)
    ensures ReadNext(b, at) == Buffer(AfterRead(b.m, At(at + k)), b.data + [CachedByte(b.m, At(at + k))])
  {
  }

  /** Copying `n` bytes from flash offset `at` on into the stack buffer. */
  ghost function Stage(m: Machine, at: nat, n: nat): (b: Buffer)
    requires Sane(m) && at + n <= |m.mem|
    ensures IsCopying(b, n, m.mem)
  {
    StageIsCopying(m, at, n);
    Iterate(Reader(at), Buffer(m, []), n)
  }

  lemma StageIsCopying(m: Machine, at: nat, n: nat)
    requires Sane(m) && at + n <= |m.mem|
    ensures IsCopying(Iterate(Reader(at), Buffer(m, []), n), n, m.mem)
  {
    var inv := (b: Buffer, k: nat) => IsCopying(b, k, m.mem);
    forall b: Buffer, k: nat | k < n && inv(b, k)
      ensures inv(Reader(at)(b), k + 1)
    {
      IsCopyingOn(b, k, m.mem, at);
    }
    IterateKeeps(Reader(at), Buffer(m, []), n, inv);
  }

  /** Where the write loop stands: `addr`, the source offset, the bytes left, and what fits in the page. */
  datatype Pos = Pos(addr: nat, at: nat, len: nat, ns: nat)

  function Length(p: Pos): nat
  {
    ChunkLength(p.len, p.ns)
  }

  function NextPos(p: Pos): Pos
  {
    var nw := Length(p);
    Pos(p.addr + nw, p.at + nw, p.len - nw, PAGE_SIZE)
  }

  function Chunked<S>(step: (S, Pos) -> S, s: S, p: Pos): S
    requires 0 < p.ns
    decreases p.len
  {
    if p.len == 0 then s else Chunked(step, step(s, p), NextPos(p))
  }

  lemma {:induction false} ChunkedKeeps<S(!new)>(step: (S, Pos) -> S, s: S, p: Pos, inv: (S, Pos) -> bool) returns (q: Pos)
    requires 0 < p.ns && inv(s, p)
    requires forall t: S, o: Pos {:trigger inv(t, o)} :: 0 < o.ns && 0 < o.len && inv(t, o) ==> inv(step(t, o), NextPos(o))
    ensures inv(Chunked(step, s, p), q) && q.len == 0 && q.addr == p.addr + p.len && q.at == p.at + p.len
    decreases p.len
  {
    if p.len == 0 {
      q := p;
    } else {
      q := ChunkedKeeps(step, step(s, p), NextPos(p), inv);
    }
  }

  /** One chunk: staged through the cache, then programmed behind it. */
  ghost function ChunkStep(m: Machine, p: Pos): Machine
  {
    if Sane(m) && p.at + Length(p) <= |m.mem| then
      var b := Stage(m, p.at, Length(p));
      Machine(Programmed(m.mem, p.addr, b.data), b.m.lines)
    else m
  }

  ghost function Chunker(): (Machine, Pos) -> Machine
  {
    (m, p) => ChunkStep(m, p)
  }

  /** The write loop with a source in flash: each chunk is staged only when its turn comes. */
  ghost function StagedWrites(m: Machine, p: Pos): Machine
    requires 0 < p.ns
  {
    Chunked(Chunker(), m, p)
  }

  // ------------------------- one read

  /** What one pointer read does to the cached view of any other address. */
  lemma ReadEffect(m: Machine, p: nat, q: nat)
    requires Sane(m) && InWindow(|m.mem|, p) && InWindow(|m.mem|, q)
    ensures LineOf(q) == LineOf(p) ==> Hit(AfterRead(m, p), q)
    ensures LineOf(q) == LineOf(p) ==>
              CachedByte(AfterRead(m, p), q) == if Hit(m, p) then CachedByte(m, q) else FlashByte(m.mem, q)
    ensures LineOf(q) != LineOf(p) && Hit(AfterRead(m, p), q) ==> Hit(m, q) && CachedByte(AfterRead(m, p), q) == CachedByte(m, q)
  {
    LineInWindow(|m.mem|, p);
    LineInWindow(|m.mem|, q);
    LineSplits(LineOf(p));
    LineSplits(LineOf(q));
  }

  // ------------------------- reads that return what flash held at first

  /** Where the cache holds a byte of `[lo, hi)`, it is that of `orig`. */
  ghost predicate Fresh(m: Machine, orig: seq<byte>, lo: nat, hi: nat)
    requires Sane(m) && |orig| == |m.mem| && hi <= |m.mem|
  {
    forall a: nat {:trigger At(a)} :: lo <= a < hi && Hit(m, At(a)) ==> CachedByte(m, At(a)) == orig[a]
  }

  ghost predicate Unchanged(mem: seq<byte>, orig: seq<byte>, lo: nat, hi: nat)
    requires |orig| == |mem| && hi <= |mem|
  {
    forall a: nat {:trigger At(a)} :: lo <= a < hi ==> mem[a] == orig[a]
  }

  /** What has changed in `[at, hi)` lies on the line of the byte before `at`. */
  ghost predicate ChangedOnOneLine(mem: seq<byte>, orig: seq<byte>, at: nat, hi: nat)
    requires |orig| == |mem| && hi <= |mem|
  {
    forall a: nat {:trigger At(a)} :: at <= a < hi && mem[a] != orig[a] ==> LineOf(At(a)) == LineOf(At(at) - 1)
  }

  /**
   * Reading on from `a` is safe: the cache is fresh, and either nothing has changed, or what has changed lies on one line,
   * which is cached or already passed.
   */
  ghost predicate Reading(m: Machine, orig: seq<byte>, at: nat, a: nat, hi: nat)
  {
    && Sane(m) && |orig| == |m.mem| && at <= a <= hi <= |m.mem| && Fresh(m, orig, at, hi)
    && (|| Unchanged(m.mem, orig, at, hi)
        || (&& ChangedOnOneLine(m.mem, orig, at, hi)
            && (LineOf(At(a)) > LineOf(At(at) - 1) || Hit(m, At(at) - 1))))
  }

  lemma SameLineHit(m: Machine, p: nat, q: nat)
    requires Sane(m) && LineOf(p) == LineOf(q)
    ensures Hit(m, p) == Hit(m, q)
  {
  }

  /** A missing line that holds no changed byte: reading it returns the original byte and keeps the cache fresh. */
  lemma FreshRead(m: Machine, orig: seq<byte>, at: nat, a: nat, hi: nat)
    requires Sane(m) && |orig| == |m.mem| && at <= a < hi <= |m.mem| && Fresh(m, orig, at, hi)
    requires !Hit(m, At(a)) ==> forall b: nat {:trigger At(b)} ::
               at <= b < hi && LineOf(At(b)) == LineOf(At(a)) ==> m.mem[b] == orig[b]
    ensures CachedByte(m, At(a)) == orig[a]
    ensures Fresh(AfterRead(m, At(a)), orig, at, hi)
  {
    forall b: nat | at <= b < hi && Hit(AfterRead(m, At(a)), At(b))
      ensures CachedByte(AfterRead(m, At(a)), At(b)) == orig[b]
    {
      ReadEffect(m, At(a), At(b));
      if LineOf(At(a)) == LineOf(At(b)) {
        SameLineHit(m, At(a), At(b));
      }
    }
  }

  lemma OneRead(m: Machine, orig: seq<byte>, at: nat, a: nat, hi: nat)
    requires Reading(m, orig, at, a, hi) && a < hi
    ensures CachedByte(m, At(a)) == orig[a]
    ensures Reading(AfterRead(m, At(a)), orig, at, a + 1, hi) && Hit(AfterRead(m, At(a)), At(a))
  {
    var shield := LineOf(At(at) - 1);
    LineOrder(At(at) - 1, At(a));
    LineOrder(At(a), At(a + 1));
    if LineOf(At(a)) == shield {
      SameLineHit(m, At(a), At(at) - 1);
    }
    FreshRead(m, orig, at, a, hi);
    ReadEffect(m, At(a), At(a));
  }

  /** `data` is `orig` from offset `at` on. */
  ghost predicate IsPiece(data: seq<byte>, orig: seq<byte>, at: nat)
  {
    at + |data| <= |orig| && forall k {:trigger data[k]} :: 0 <= k < |data| ==> data[k] == orig[at + k]
  }

  lemma PieceGrows(data: seq<byte>, b: byte, orig: seq<byte>, at: nat)
    requires IsPiece(data, orig, at) && at + |data| < |orig| && b == orig[at + |data|]
    ensures IsPiece(data + [b], orig, at)
  {
  }

  ghost predicate StagedWell(b: Buffer, k: nat, orig: seq<byte>, at: nat, hi: nat)
  {
    && |b.data| == k && IsPiece(b.data, orig, at) && Reading(b.m, orig, at, at + k, hi)
    && (k > 0 ==> Hit(b.m, At(at + k - 1)))
  }

  lemma StagedOneMore(b: Buffer, k: nat, orig: seq<byte>, at: nat, hi: nat)
    requires StagedWell(b, k, orig, at, hi) && at + k < hi
    ensures StagedWell(ReadNext(b, at), k + 1, orig, at, hi)
  {
    OneRead(b.m, orig, at, at + k, hi);
    PieceGrows(b.data, CachedByte(b.m, At(at + k)), orig, at);
  }

  /** Then the whole chunk is staged as the flash originally was. */
  lemma StageIsOriginal(m: Machine, orig: seq<byte>, at: nat, n: nat, hi: nat)
    requires Reading(m, orig, at, at, hi) && at + n <= hi
    ensures StagedWell(Stage(m, at, n), n, orig, at, hi)
  {
    var inv := (b: Buffer, k: nat) => StagedWell(b, k, orig, at, hi);
    forall b: Buffer, k: nat | k < n && inv(b, k)
      ensures inv(Reader(at)(b), k + 1)
    {
      StagedOneMore(b, k, orig, at, hi);
    }
    IterateKeeps(Reader(at), Buffer(m, []), n, inv);
  }

  // ------------------------- chunk after chunk

  /** The room is the rest of a page. */
  ghost predicate OnPage(p: Pos)
  {
    exists next: nat :: Room(p.addr, p.ns, next)
  }

  lemma NextOnPage(p: Pos)
    requires OnPage(p) && p.len > p.ns
    ensures OnPage(NextPos(p))
  {
    var next: nat :| Room(p.addr, p.ns, next);
    assert Room(p.addr + p.ns, PAGE_SIZE, next + 1);
  }

  lemma CacheSurvivesProgramming(m: Machine, mem: seq<byte>, orig: seq<byte>, lo: nat, hi: nat, lo': nat)
    requires Sane(m) && |mem| == |m.mem| == |orig| && lo <= lo' && hi <= |mem| && Fresh(m, orig, lo, hi)
    ensures Fresh(Machine(mem, m.lines), orig, lo', hi)
  {
    forall a: nat | lo' <= a < hi && Hit(Machine(mem, m.lines), At(a))
      ensures CachedByte(Machine(mem, m.lines), At(a)) == orig[a]
    {
      assert Hit(m, At(a));
    }
  }

  /** A chunk whose reads are safe writes the original bytes, and leaves the line of its last source byte in the cache. */
  lemma ChunkIsOriginal(m: Machine, orig: seq<byte>, p: Pos, hi: nat)
    requires OnPage(p) && 0 < Length(p) <= p.ns && Reading(m, orig, p.at, p.at, hi) && p.at + Length(p) <= hi
    ensures Sane(ChunkStep(m, p)) && |ChunkStep(m, p).mem| == |m.mem|
    ensures IsWritten(m.mem, p.addr, Slice(orig, p.at, Length(p)), ChunkStep(m, p).mem)
    ensures Fresh(ChunkStep(m, p), orig, p.at + Length(p), hi)
    ensures Hit(ChunkStep(m, p), At(p.at + Length(p)) - 1)
  {
    var nw := Length(p);
    var b := Stage(m, p.at, nw);
    var mem := Programmed(m.mem, p.addr, b.data);
    var next: nat :| Room(p.addr, p.ns, next);
    StageIsOriginal(m, orig, p.at, nw, hi);
    assert b.data == Slice(orig, p.at, nw);
    InPageCommand(m.mem, p.addr, p.ns, next, b.data, mem);
    CacheSurvivesProgramming(b.m, mem, orig, p.at, hi, p.at + nw);
    assert Hit(b.m, At(p.at + nw - 1));
  }

  /** Only bytes in `[lo, hi)` differ. */
  ghost predicate DiffersIn(mem: seq<byte>, orig: seq<byte>, lo: nat, hi: nat)
  {
    |mem| == |orig| && forall a: nat {:trigger mem[a]} :: a < |mem| && !(lo <= a < hi) ==> mem[a] == orig[a]
  }

  /** Of the bytes from `at` on, those in the part written so far lie on the line of the byte before `at`. */
  ghost predicate BoundaryOk(addr0: nat, addr: nat, at: nat, hi: nat)
  {
    forall a: nat {:trigger At(a)} :: at <= a < hi && addr0 <= a < addr ==> LineOf(At(a)) == LineOf(At(at) - 1)
  }

  lemma NextReading(m: Machine, orig: seq<byte>, addr0: nat, addr: nat, at: nat, hi: nat)
    requires Sane(m) && DiffersIn(m.mem, orig, addr0, addr) && 0 < at <= hi <= |m.mem|
    requires BoundaryOk(addr0, addr, at, hi) && Fresh(m, orig, at, hi) && Hit(m, At(at) - 1)
    ensures Reading(m, orig, at, at, hi)
  {
    forall a: nat | at <= a < hi && m.mem[a] != orig[a]
      ensures LineOf(At(a)) == LineOf(At(at) - 1)
    {
      assert addr0 <= a < addr;
    }
  }

  lemma WritesJoin(orig: seq<byte>, addr: nat, at: nat, n: nat, k: nat, mem1: seq<byte>, mem2: seq<byte>)
    requires at + n + k <= |orig| && IsWritten(orig, addr, Slice(orig, at, n), mem1)
    requires IsWritten(mem1, addr + n, Slice(orig, at + n, k), mem2)
    ensures IsWritten(orig, addr, Slice(orig, at, n + k), mem2)
  {
    WrittenTwice(orig, addr, Slice(orig, at, n), mem1, Slice(orig, at + n, k), mem2, Slice(orig, at, n + k));
  }

  // ------------------------- when the copy is right

  function Min(x: nat, y: nat): nat
  {
    if x < y then x else y
  }

  /**
   * Either no chunk changes a later chunk's source, or the part of the source that the first chunk changes lies on the line
   * of that chunk's last source byte, which the data cache then holds.
   */
  predicate CopySafe(p: Pos)
    requires 0 < p.ns
  {
    || Unaffected(p.addr, InFlash(p.at), p.len, p.ns)
    || LineOf(At(p.at + Min(p.len, p.addr - p.at + p.ns) - 1)) == LineOf(At(p.at + p.ns - 1))
  }

  /** The loop has written `done` bytes and stands at a chunk boundary. */
  predicate AtBoundary(p: Pos, done: nat)
  {
    done == 0 || (p.ns <= done && (done - p.ns) % 256 == 0)
  }

  lemma LineShift(a: nat, k: nat)
    ensures LineOf(a + 256 * k) == LineOf(a) + 8 * k
  {
  }

  lemma SafeBoundary(p: Pos, done: nat)
    requires 0 < p.ns && CopySafe(p) && AtBoundary(p, done) && 0 < done < p.len
    ensures BoundaryOk(p.addr, p.addr + done, p.at + done, p.at + p.len)
  {
    forall a: nat | p.at + done <= a < p.at + p.len && p.addr <= a < p.addr + done
      ensures LineOf(At(a)) == LineOf(At(p.at + done) - 1)
    {
      var k := (done - p.ns) / 256;
      assert done == p.ns + 256 * k;
      var first, last := At(p.at + p.ns - 1), At(p.at + Min(p.len, p.addr - p.at + p.ns) - 1);
      var b: nat := At(a) - 256 * k;
      LineShift(b, k);
      LineShift(first, k);
      LineOrder(first, b);
      LineOrder(b, last);
    }
  }

  /** The loop is on its way from `p0`. */
  ghost predicate OnTheWay(p: Pos, p0: Pos, size: nat)
  {
    && p0.addr + p0.len <= size && p0.at + p0.len <= size
    && p0.addr <= p.addr && p.addr - p0.addr == p.at - p0.at && p.addr + p.len == p0.addr + p0.len
    && (p.len > 0 ==> OnPage(p))
    && if p.addr == p0.addr then p.ns == p0.ns else p.ns == PAGE_SIZE && (p.len > 0 ==> AtBoundary(p0, p.addr - p0.addr))
  }

  ghost predicate WrittenSoFar(mem: seq<byte>, p: Pos, orig: seq<byte>, p0: Pos)
    requires OnTheWay(p, p0, |orig|)
  {
    IsWritten(orig, p0.addr, Slice(orig, p0.at, p.addr - p0.addr), mem)
  }

  /** Between two chunks: what has been written is right, and the rest of the source can be read as it was. */
  ghost predicate Copying(m: Machine, p: Pos, orig: seq<byte>, p0: Pos)
  {
    && OnTheWay(p, p0, |orig|) && Sane(m) && WrittenSoFar(m.mem, p, orig, p0)
    && (p.len > 0 ==> Reading(m, orig, p.at, p.at, p0.at + p0.len))
  }

  lemma OnTheWayOn(p: Pos, p0: Pos, size: nat)
    requires OnTheWay(p, p0, size) && 0 < p0.ns && 0 < p.ns && 0 < p.len
    ensures OnTheWay(NextPos(p), p0, size) && 0 < Length(p) <= p.ns && NextPos(p).addr > p0.addr
  {
    if p.len > p.ns {
      NextOnPage(p);
    }
  }

  lemma WrittenOn(mem: seq<byte>, p: Pos, orig: seq<byte>, p0: Pos, mem': seq<byte>)
    requires OnTheWay(p, p0, |orig|) && OnTheWay(NextPos(p), p0, |orig|) && WrittenSoFar(mem, p, orig, p0)
    requires p.at + Length(p) <= |orig| && IsWritten(mem, p.addr, Slice(orig, p.at, Length(p)), mem')
    ensures WrittenSoFar(mem', NextPos(p), orig, p0)
  {
    WritesJoin(orig, p0.addr, p0.at, p.addr - p0.addr, Length(p), mem, mem');
  }

  /** A chunk has just been written. */
  ghost predicate ChunkDone(m: Machine, p: Pos, orig: seq<byte>, p0: Pos)
  {
    && OnTheWay(p, p0, |orig|) && p.addr > p0.addr && Sane(m) && WrittenSoFar(m.mem, p, orig, p0)
    && Fresh(m, orig, p.at, p0.at + p0.len) && Hit(m, At(p.at) - 1)
  }

  lemma DoneFrom(mem: seq<byte>, m: Machine, p: Pos, orig: seq<byte>, p0: Pos)
    requires OnTheWay(p, p0, |orig|) && OnTheWay(NextPos(p), p0, |orig|) && WrittenSoFar(mem, p, orig, p0)
    requires p.at + Length(p) <= |orig| && IsWritten(mem, p.addr, Slice(orig, p.at, Length(p)), m.mem)
    requires Sane(m) && |m.mem| == |orig| && NextPos(p).addr > p0.addr
    requires Fresh(m, orig, p.at + Length(p), p0.at + p0.len) && Hit(m, At(p.at + Length(p)) - 1)
    ensures ChunkDone(m, NextPos(p), orig, p0)
  {
    WrittenOn(mem, p, orig, p0, m.mem);
  }

  lemma ChunkIsDone(m: Machine, p: Pos, orig: seq<byte>, p0: Pos)
    requires 0 < p0.ns && 0 < p.ns && 0 < p.len && Copying(m, p, orig, p0)
    ensures ChunkDone(ChunkStep(m, p), NextPos(p), orig, p0)
  {
    OnTheWayOn(p, p0, |orig|);
    ChunkIsOriginal(m, orig, p, p0.at + p0.len);
    DoneFrom(m.mem, ChunkStep(m, p), p, orig, p0);
  }

  lemma CopyingFrom(m: Machine, p: Pos, orig: seq<byte>, p0: Pos)
    requires 0 < p0.ns && CopySafe(p0) && ChunkDone(m, p, orig, p0)
    ensures Copying(m, p, orig, p0)
  {
    if p.len > 0 {
      SafeBoundary(p0, p.addr - p0.addr);
      NextReading(m, orig, p0.addr, p.addr, p.at, p0.at + p0.len);
    }
  }

  lemma CopyingOn(m: Machine, p: Pos, orig: seq<byte>, p0: Pos)
    requires 0 < p0.ns && CopySafe(p0) && 0 < p.ns && 0 < p.len && Copying(m, p, orig, p0)
    ensures Copying(ChunkStep(m, p), NextPos(p), orig, p0)
  {
    ChunkIsDone(m, p, orig, p0);
    CopyingFrom(ChunkStep(m, p), NextPos(p), orig, p0);
  }

  lemma CopyingAtFirst(m: Machine, p: Pos)
    requires Coherent(m) && p.addr + p.len <= |m.mem| && p.at + p.len <= |m.mem| && OnPage(p)
    ensures Copying(m, p, m.mem, p)
  {
    forall a: nat | p.at <= a < p.at + p.len
      ensures CachedByte(m, At(a)) == m.mem[a]
    {
      ReadIsFlash(m, At(a));
    }
  }

  /** From a coherent cache on, a safe copy writes the bytes that flash held before the call. */
  lemma SafeCopy(m: Machine, p: Pos)
    requires Coherent(m) && p.addr + p.len <= |m.mem| && p.at + p.len <= |m.mem| && OnPage(p) && CopySafe(p)
    ensures IsWritten(m.mem, p.addr, Slice(m.mem, p.at, p.len), StagedWrites(m, p).mem)
  {
    var inv := (t: Machine, o: Pos) => Copying(t, o, m.mem, p);
    CopyingAtFirst(m, p);
    forall t: Machine, o: Pos | 0 < o.ns && 0 < o.len && inv(t, o)
      ensures inv(Chunker()(t, o), NextPos(o))
    {
      CopyingOn(t, o, m.mem, p);
    }
    var q := ChunkedKeeps(Chunker(), m, p, inv);
  }

  // ------------------------- when it is not

  /** Byte `x` is cleared in flash, and in the cache if that holds it. */
  ghost predicate Tainted(m: Machine, x: nat)
  {
    Sane(m) && x < |m.mem| && m.mem[x] == CLEARED && CachedByte(m, At(x)) == CLEARED
  }

  ghost predicate TaintedCopy(b: Buffer, k: nat, mem: seq<byte>, at: nat, x: nat)
  {
    IsCopying(b, k, mem) && Tainted(b.m, x) && (at <= x < at + k ==> b.data[x - at] == CLEARED)
  }

  lemma TaintedCopyOn(b: Buffer, k: nat, mem: seq<byte>, at: nat, x: nat)
    requires TaintedCopy(b, k, mem, at, x) && at + k < |mem|
    ensures TaintedCopy(ReadNext(b, at), k + 1, mem, at, x)
  {
    IsCopyingOn(b, k, mem, at);
    ReadEffect(b.m, At(at + k), At(x));
  }

  lemma StageTainted(m: Machine, at: nat, n: nat, x: nat)
    requires Tainted(m, x) && at + n <= |m.mem|
    ensures TaintedCopy(Stage(m, at, n), n, m.mem, at, x)
  {
    var inv := (b: Buffer, k: nat) => TaintedCopy(b, k, m.mem, at, x);
    forall b: Buffer, k: nat | k < n && inv(b, k)
      ensures inv(Reader(at)(b), k + 1)
    {
      TaintedCopyOn(b, k, m.mem, at, x);
    }
    IterateKeeps(Reader(at), Buffer(m, []), n, inv);
  }

  /** Reads of other lines do not bring the line of `x` into the cache. */
  lemma StageMisses(m: Machine, at: nat, n: nat, x: nat)
    requires Sane(m) && at + n <= x < |m.mem| && !Hit(m, At(x))
    requires n > 0 ==> LineOf(At(at + n - 1)) != LineOf(At(x))
    ensures !Hit(Stage(m, at, n).m, At(x))
  {
    var inv := (b: Buffer, k: nat) => IsCopying(b, k, m.mem) && !Hit(b.m, At(x));
    forall b: Buffer, k: nat | k < n && inv(b, k)
      ensures inv(Reader(at)(b), k + 1)
    {
      IsCopyingOn(b, k, m.mem, at);
      ReadEffect(b.m, At(at + k), At(x));
      LineOrder(At(at + k), At(at + n - 1));
      LineOrder(At(at + n - 1), At(x));
    }
    IterateKeeps(Reader(at), Buffer(m, []), n, inv);
  }

  /** A cleared byte of a chunk clears its target. */
  lemma ProgramClears(mem: seq<byte>, p: Pos, data: seq<byte>, j: nat)
    requires OnPage(p) && j < |data| <= p.ns && data[j] == CLEARED && p.addr + |data| <= |mem|
    ensures Programmed(mem, p.addr, data)[p.addr + j] == CLEARED
  {
    var next: nat :| Room(p.addr, p.ns, next);
    InPageMask(p.addr, p.ns, next, data, |data|, p.addr + j);
  }

  /** On the way with `x` still to be copied and tainted, or copied and its target cleared. */
  ghost predicate Spoiling(m: Machine, p: Pos, x: nat, d: nat, size: nat)
  {
    && Sane(m) && |m.mem| == size && p.addr == p.at + d && p.addr + p.len <= size && x + d < size
    && (p.len > 0 ==> OnPage(p))
    && if x < p.at then m.mem[x + d] == CLEARED else Tainted(m, x)
  }

  lemma SpoilingOn(m: Machine, p: Pos, x: nat, d: nat, size: nat)
    requires 0 < p.ns && 0 < p.len && Spoiling(m, p, x, d, size)
    ensures Spoiling(ChunkStep(m, p), NextPos(p), x, d, size)
  {
    var b := Stage(m, p.at, Length(p));
    if p.len > p.ns {
      NextOnPage(p);
    }
    if p.at <= x {
      StageTainted(m, p.at, Length(p), x);
      if x < p.at + Length(p) {
        ProgramClears(m.mem, p, b.data, x - p.at);
      } else {
        assert CachedByte(b.m, At(x)) == CLEARED;
      }
    }
  }

  /** Flash all ones but one byte, and an empty cache. */
  function Blank(size: nat, c: nat): Machine
  {
    Machine(seq(size, i => if i == c then CLEARED else ERASED), seq(LINES, _ => Invalid))
  }

  lemma BlankIsCoherent(size: nat, c: nat)
    requires size % 32 == 0
    ensures Coherent(Blank(size, c))
  {
    forall i | 0 <= i < LINES
      ensures AgreesAt(Blank(size, c), i)
    {
      assert Blank(size, c).lines[i] == Invalid;
    }
  }

  /** Where the first chunk of an unsafe copy spoils the source: `x` is `d` bytes behind its own target. */
  ghost predicate Spoils(p: Pos, x: nat, d: nat)
    requires 0 < p.ns
  {
    && 0 < d <= x && p.addr == p.at + d && p.ns < p.len
    && p.at + p.ns <= x < p.at + p.len && p.addr <= x < p.addr + p.ns
    && LineOf(At(x)) != LineOf(At(p.at + p.ns - 1))
  }

  lemma UnsafeSpoils(p: Pos) returns (x: nat, d: nat)
    requires 0 < p.ns && !CopySafe(p)
    ensures Spoils(p, x, d)
  {
    d := p.addr - p.at;
    x := p.at + Min(p.len, d + p.ns) - 1;
  }

  lemma StagesCleared(m: Machine, p: Pos, c: nat)
    requires Coherent(m) && OnPage(p) && p.ns < p.len && p.addr + p.len <= |m.mem| && p.at + p.len <= |m.mem|
    requires p.at <= c < p.at + p.ns && m.mem[c] == CLEARED
    ensures Stage(m, p.at, p.ns).data[c - p.at] == CLEARED
  {
    CopyingAtFirst(m, p);
    StageIsOriginal(m, m.mem, p.at, p.ns, p.at + p.len);
  }

  lemma FirstChunkTaints(m: Machine, p: Pos, x: nat, d: nat)
    requires Coherent(m) && OnPage(p) && p.addr + p.len <= |m.mem| && Spoils(p, x, d)
    requires m.mem[x - d] == CLEARED && !Hit(m, At(x))
    ensures Spoiling(ChunkStep(m, p), NextPos(p), x, d, |m.mem|)
  {
    var b := Stage(m, p.at, p.ns);
    StagesCleared(m, p, x - d);
    ProgramClears(m.mem, p, b.data, x - p.addr);
    StageMisses(m, p.at, p.ns, x);
    NextOnPage(p);
  }

  lemma Spoiled(m: Machine, p: Pos, x: nat, d: nat, size: nat)
    requires 0 < p.ns && Spoiling(m, p, x, d, size) && x < p.at + p.len
    ensures |StagedWrites(m, p).mem| == size && StagedWrites(m, p).mem[x + d] == CLEARED
  {
    var inv := (t: Machine, o: Pos) => Spoiling(t, o, x, d, size);
    forall t: Machine, o: Pos | 0 < o.ns && 0 < o.len && inv(t, o)
      ensures inv(Chunker()(t, o), NextPos(o))
    {
      SpoilingOn(t, o, x, d, size);
    }
    var q := ChunkedKeeps(Chunker(), m, p, inv);
  }

  lemma NotAsWritten(mem: seq<byte>, addr: nat, at: nat, len: nat, j: nat, mem': seq<byte>)
    requires addr + len <= |mem| && at + len <= |mem| && j < len && |mem'| == |mem|
    requires mem[at + j] == ERASED && mem[addr + j] == ERASED && mem'[addr + j] == CLEARED
    ensures !IsWritten(mem, addr, Slice(mem, at, len), mem')
  {
    AllOnesIsNeutral(ERASED);
    assert 0 in ERASED;
  }

  /** Otherwise a coherent machine exists on which the copy goes wrong. */
  lemma UnsafeCopy(size: nat, p: Pos) returns (m: Machine)
    requires size % 32 == 0 && p.addr + p.len <= size && p.at + p.len <= size && OnPage(p) && !CopySafe(p)
    ensures Coherent(m) && |m.mem| == size
    ensures !IsWritten(m.mem, p.addr, Slice(m.mem, p.at, p.len), StagedWrites(m, p).mem)
  {
    var x, d := UnsafeSpoils(p);
    m := Blank(size, x - d);
    BlankIsCoherent(size, x - d);
    FirstChunkTaints(m, p, x, d);
    Spoiled(ChunkStep(m, p), NextPos(p), x, d, size);
    NotAsWritten(m.mem, p.addr, p.at, p.len, x - p.at, StagedWrites(m, p).mem);
  }

  /**
   * Copying flash to flash through a coherent data cache writes the bytes held before the call, whatever flash and cache
   * hold, exactly then.
   */
  lemma CopyIsSafeExactly(size: nat, p: Pos)
    requires size % 32 == 0 && p.addr + p.len <= size && p.at + p.len <= size && OnPage(p)
    ensures (forall m :: Coherent(m) && |m.mem| == size ==>
               IsWritten(m.mem, p.addr, Slice(m.mem, p.at, p.len), StagedWrites(m, p).mem))
            <==> CopySafe(p)
  {
    if CopySafe(p) {
      forall m | Coherent(m) && |m.mem| == size
        ensures IsWritten(m.mem, p.addr, Slice(m.mem, p.at, p.len), StagedWrites(m, p).mem)
      {
        SafeCopy(m, p);
      }
    } else {
      var m := UnsafeCopy(size, p);
    }
  }

  /** Moving 256 bytes up by one: the chunks overlap, and only the cached line makes the copy right. */
  lemma CacheHidesOverlap()
    ensures !Unaffected(1, InFlash(0), 256, 255) && CopySafe(Pos(1, 0, 256, 255))
  {
  }

  // ------------------------- the code

  /** The copy into the stack buffer. */
  method StageChunk(cache: DataCache, at: nat, nw: nat) returns (constBuf: array<byte>)
    requires cache.lines.Length == LINES && cache.flash.mem.Length % 32 == 0 && at + nw <= cache.flash.mem.Length
    modifies cache.lines
    ensures fresh(constBuf) && Buffer(cache.State(), constBuf[..]) == Stage(old(cache.State()), at, nw)
  {
    constBuf := new byte[nw];
    ghost var m := cache.State();
    for k := 0 to nw
      invariant Buffer(cache.State(), constBuf[..k]) == Iterate(Reader(at), Buffer(m, []), k)
    {
      StageIsCopying(m, at, k);
      IsCopyingOn(Buffer(cache.State(), constBuf[..k]), k, m.mem, at);
      ghost var done := constBuf[..k];
      constBuf[k] := cache.ReadByte(At(at + k));
      assert constBuf[..k + 1] == done + [constBuf[k]];
    }
    assert constBuf[..nw] == constBuf[..];
  }

  /** One round of the loop. */
  method WriteChunk(cache: DataCache, p: Pos)
    requires cache.lines.Length == LINES && Pages(cache.flash.mem[..]) && cache.flash.mem.Length % 32 == 0
    requires 0 < p.len && p.addr + p.len <= cache.flash.mem.Length && p.at + p.len <= cache.flash.mem.Length
    modifies cache.lines, cache.flash.mem, cache.flash`commands
    ensures cache.State() == ChunkStep(old(cache.State()), p)
  {
    var constBuf := StageChunk(cache, p.at, Length(p));
    cache.flash.Program(p.addr, constBuf[..]);
  }

  /** `flash_write` with a buffer in flash. */
  method WriteFromFlash(cache: DataCache, addr0: nat, at0: nat, len0: nat)
    requires cache.lines.Length == LINES && Pages(cache.flash.mem[..]) && cache.flash.mem.Length % 32 == 0
    requires addr0 + len0 <= cache.flash.mem.Length && at0 + len0 <= cache.flash.mem.Length
    modifies cache.lines, cache.flash.mem, cache.flash`commands
    ensures cache.State() == StagedWrites(old(cache.State()), Pos(addr0, at0, len0, PAGE_SIZE - PageOffset(addr0)))
    ensures Coherent(old(cache.State())) && CopySafe(Pos(addr0, at0, len0, PAGE_SIZE - PageOffset(addr0))) ==>
              IsWritten(old(cache.flash.mem[..]), addr0, Slice(old(cache.flash.mem[..]), at0, len0), cache.flash.mem[..])
  {
    var p := Pos(addr0, at0, len0, PAGE_SIZE - PageOffset(addr0));
    ghost var m, p0 := cache.State(), p;
    var next := RoomLeft(addr0);
    if Coherent(m) && CopySafe(p0) {
      SafeCopy(m, p0);
    }
    while p.len > 0
      invariant 0 < p.ns <= STACK_SIZE_FOR_FLASH_DATA && |cache.flash.mem[..]| == |m.mem|
      invariant p.addr + p.len <= |m.mem| && p.at + p.len <= |m.mem|
      invariant StagedWrites(cache.State(), p) == StagedWrites(m, p0)
      decreases p.len
    {
      // The source stalls here on a chunk larger than its stack buffer; there is none.
      assert Length(p) <= STACK_SIZE_FOR_FLASH_DATA;
      WriteChunk(cache, p);
      p := NextPos(p);
    }
  }
}
