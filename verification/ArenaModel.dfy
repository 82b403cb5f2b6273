/** `UnsafeArena` (base/arena.cc) over a flat memory: addresses are integers, a block is a
    range of them obtained from the system allocator, and two blocks may lie side by side.
    The state also records which regions the client holds. Regions of size zero hold no
    bytes and are not recorded. */
module ArenaModel {
  import opened Basics

  type Memory = int -> int

  datatype Block = Block(data: int, size: nat, used: nat)

  /** [addr, addr + size). */
  datatype Region = Region(addr: int, size: nat)

  datatype Arena = Arena(blockSize: nat, blocks: seq<Block>, bytesAllocated: nat, mem: Memory, live: set<Region>)

  predicate Apart(a: int, m: nat, b: int, n: nat) { a + m <= b || b + n <= a || m == 0 || n == 0 }

  function Total(blocks: seq<Block>): nat {
    if blocks == [] then 0 else Total(blocks[..|blocks| - 1]) + blocks[|blocks| - 1].size
  }

  /** The region lies in the part of block b that has been handed out. */
  predicate InBlock(b: Block, r: Region) { b.data <= r.addr && r.addr + r.size <= b.data + b.used }

  ghost predicate Housed(blocks: seq<Block>, r: Region) { exists i :: 0 <= i < |blocks| && InBlock(blocks[i], r) }

  ghost predicate BlocksValid(blocks: seq<Block>) {
    && (forall i :: 0 <= i < |blocks| ==> blocks[i].used <= blocks[i].size)
    && (forall i, j :: 0 <= i < j < |blocks| ==>
          Apart(blocks[i].data, blocks[i].size, blocks[j].data, blocks[j].size))
  }

  ghost predicate LiveValid(blocks: seq<Block>, live: set<Region>) {
    && (forall r :: r in live ==> r.size > 0 && Housed(blocks, r))
    && (forall r, s :: r in live && s in live && r != s ==> Apart(r.addr, r.size, s.addr, s.size))
  }

  ghost predicate Inv(a: Arena) {
    BlocksValid(a.blocks) && LiveValid(a.blocks, a.live) && a.bytesAllocated == Total(a.blocks)
  }

  // ----- Operations -----------------------------------------------------------------------------------

  function Last(a: Arena): Block
    requires a.blocks != []
  {
    a.blocks[|a.blocks| - 1]
  }

  function WithLast(a: Arena, b: Block): Arena
    requires a.blocks != []
  {
    a.(blocks := a.blocks[..|a.blocks| - 1] + [b])
  }

  predicate NeedsBlock(a: Arena, n: nat) { a.blocks == [] || Last(a).size < Last(a).used + n }

  /** The system allocator's promise about the address it returns. */
  ghost predicate Fresh(a: Arena, n: nat, addr: int) {
    NeedsBlock(a, n) ==>
      forall i :: 0 <= i < |a.blocks| ==> Apart(a.blocks[i].data, a.blocks[i].size, addr, Max(n, a.blockSize))
  }

  function AllocBlock(a: Arena, size: nat, addr: int): Arena {
    a.(blocks := a.blocks + [Block(addr, size, 0)], bytesAllocated := a.bytesAllocated + size)
  }

  function Reserve(a: Arena, n: nat, addr: int): (r: Arena)
    ensures r.blocks != [] && Last(r).used + n <= Last(r).size
  {
    if NeedsBlock(a, n) then AllocBlock(a, Max(n, a.blockSize), addr) else a
  }

  function Bump(a: Arena, n: nat): Arena
    requires a.blocks != []
  {
    WithLast(a, Last(a).(used := Last(a).used + n))
  }

  function Hold(a: Arena, r: Region): Arena { if r.size > 0 then a.(live := a.live + {r}) else a }

  function Drop(a: Arena, r: Region): Arena { a.(live := a.live - {r}) }

  /** Where `Alloc` puts the next n bytes. */
  function AllocAt(a: Arena, n: nat, addr: int): int {
    var r := Reserve(a, n, addr);
    Last(r).data + Last(r).used
  }

  function Alloc(a: Arena, n: nat, addr: int): Arena {
    Hold(Bump(Reserve(a, n, addr), n), Region(AllocAt(a, n, addr), n))
  }

  function Copy(m: Memory, dst: int, src: int, n: nat): Memory {
    x => if dst <= x < dst + n then m(src + (x - dst)) else m(x)
  }

  function Store(m: Memory, dst: int, bytes: seq<int>): Memory {
    x => if dst <= x < dst + |bytes| then bytes[x - dst] else m(x)
  }

  /** The most recent allocation, with room behind it: `Realloc` keeps the address. */
  predicate InPlace(a: Arena, r: Region, newsize: nat) {
    && a.blocks != [] && Last(a).data <= r.addr < Last(a).data + Last(a).size
    && r.addr + r.size == Last(a).data + Last(a).used
    && r.addr + newsize < Last(a).data + Last(a).size
  }

  function ReallocAt(a: Arena, r: Region, newsize: nat, addr: int): int {
    if InPlace(a, r, newsize) then r.addr else AllocAt(a, newsize, addr)
  }

  function Realloc(a: Arena, r: Region, newsize: nat, addr: int): Arena {
    if InPlace(a, r, newsize) then
      var l := Last(a);
      Hold(Drop(WithLast(a, l.(used := r.addr - l.data + newsize)), r), Region(r.addr, newsize))
    else
      var b := Alloc(a, newsize, addr);
      Drop(b.(mem := Copy(b.mem, AllocAt(a, newsize, addr), r.addr, r.size)), r)
  }

  function Memdup(a: Arena, bytes: seq<int>, addr: int): Arena {
    var b := Alloc(a, |bytes|, addr);
    b.(mem := Store(b.mem, AllocAt(a, |bytes|, addr), bytes))
  }

  /** `Free` takes the bytes back only if the region is the most recent allocation. */
  predicate MostRecent(a: Arena, r: Region) {
    a.blocks != [] && r.size <= Last(a).used && r.addr + r.size == Last(a).data + Last(a).used
  }

  function Free(a: Arena, r: Region): Arena {
    Drop(if MostRecent(a, r) then WithLast(a, Last(a).(used := Last(a).used - r.size)) else a, r)
  }

  function Reset(a: Arena): Arena { a.(blocks := [], bytesAllocated := 0, live := {}) }

  function Write(a: Arena, r: Region, bytes: seq<int>): Arena { a.(mem := Store(a.mem, r.addr, bytes)) }

  // ----- Every operation keeps the invariant --------------------------------------------------------------

  lemma TotalAppend(blocks: seq<Block>, b: Block)
    ensures Total(blocks + [b]) == Total(blocks) + b.size
  {
    assert (blocks + [b])[..|blocks|] == blocks;
  }

  /** Changing how much of the last block is used. */
  lemma LastResized(a: Arena, used: nat)
    requires BlocksValid(a.blocks) && a.blocks != [] && used <= Last(a).size
    ensures var b := WithLast(a, Last(a).(used := used));
            BlocksValid(b.blocks) && Total(b.blocks) == Total(a.blocks)
  {
    var n := |a.blocks| - 1;
    TotalAppend(a.blocks[..n], Last(a));
    TotalAppend(a.blocks[..n], Last(a).(used := used));
    assert a.blocks == a.blocks[..n] + [Last(a)];
  }

  /** A held region survives it if it is elsewhere or still within the used part. */
  lemma StillHoused(a: Arena, used: nat, r: Region)
    requires a.blocks != [] && Housed(a.blocks, r)
    requires InBlock(Last(a), r) ==> r.addr + r.size <= Last(a).data + used
    ensures Housed(WithLast(a, Last(a).(used := used)).blocks, r)
  {
    var b := WithLast(a, Last(a).(used := used));
    var i :| 0 <= i < |a.blocks| && InBlock(a.blocks[i], r);
    assert InBlock(b.blocks[i], r);
  }

  /** Held regions lie in blocks, and what lies in the last block lies in its used part. */
  lemma HousedInLast(a: Arena, r: Region)
    requires BlocksValid(a.blocks) && a.blocks != [] && Housed(a.blocks, r) && r.size > 0
    ensures InBlock(Last(a), r) || Apart(r.addr, r.size, Last(a).data, Last(a).size)
  {
    var n := |a.blocks| - 1;
    var i :| 0 <= i < |a.blocks| && InBlock(a.blocks[i], r);
    assert i < n ==> Apart(a.blocks[i].data, a.blocks[i].size, a.blocks[n].data, a.blocks[n].size);
  }

  lemma HousedApartFromNew(a: Arena, n: nat, addr: int, r: Region)
    requires Inv(a) && Fresh(a, n, addr) && r in a.live
    ensures Housed(Reserve(a, n, addr).blocks, r)
    ensures Apart(r.addr, r.size, AllocAt(a, n, addr), n)
  {
    var b := Reserve(a, n, addr);
    var i :| 0 <= i < |a.blocks| && InBlock(a.blocks[i], r);
    assert InBlock(b.blocks[i], r);
    if !NeedsBlock(a, n) {
      HousedInLast(a, r);
    }
  }

  lemma ReserveKeeps(a: Arena, n: nat, addr: int)
    requires Inv(a) && Fresh(a, n, addr)
    ensures Inv(Reserve(a, n, addr))
  {
    var b := Reserve(a, n, addr);
    if NeedsBlock(a, n) {
      TotalAppend(a.blocks, Block(addr, Max(n, a.blockSize), 0));
    }
    forall r | r in a.live
      ensures Housed(b.blocks, r)
    {
      HousedApartFromNew(a, n, addr, r);
    }
  }

  lemma HoldOne(blocks: seq<Block>, live: set<Region>, r0: Region)
    requires LiveValid(blocks, live) && Housed(blocks, r0)
    requires forall r :: r in live ==> Apart(r.addr, r.size, r0.addr, r0.size)
    ensures r0.size > 0 ==> LiveValid(blocks, live + {r0})
  {
    hide Housed;
  }

  lemma Rehouse(blocks: seq<Block>, live: set<Region>, blocks': seq<Block>, live': set<Region>)
    requires LiveValid(blocks, live) && live' <= live
    requires forall r :: r in live' ==> Housed(blocks', r)
    ensures LiveValid(blocks', live')
  {
    hide Housed;
  }

  lemma AllocHouses(a: Arena, n: nat, addr: int)
    requires Inv(a) && Fresh(a, n, addr)
    ensures var c := Bump(Reserve(a, n, addr), n);
            && BlocksValid(c.blocks) && c.bytesAllocated == Total(c.blocks) && c.live == a.live
            && Housed(c.blocks, Region(AllocAt(a, n, addr), n))
  {
    ReserveKeeps(a, n, addr);
    BumpHouses(Reserve(a, n, addr), n);
    hide BlocksValid, LiveValid, Total, Housed, Bump;
  }

  lemma BumpHouses(b: Arena, n: nat)
    requires BlocksValid(b.blocks) && b.blocks != [] && Last(b).used + n <= Last(b).size
    ensures var c := Bump(b, n);
            && BlocksValid(c.blocks) && Total(c.blocks) == Total(b.blocks)
            && c.live == b.live && c.bytesAllocated == b.bytesAllocated
            && Housed(c.blocks, Region(Last(b).data + Last(b).used, n))
  {
    hide BlocksValid, Total;
    LastResized(b, Last(b).used + n);
    var c := Bump(b, n);
    assert InBlock(c.blocks[|c.blocks| - 1], Region(Last(b).data + Last(b).used, n));
  }

  lemma AllocRehouses(a: Arena, n: nat, addr: int, r: Region)
    requires Inv(a) && Fresh(a, n, addr) && r in a.live
    ensures Housed(Bump(Reserve(a, n, addr), n).blocks, r)
    ensures Apart(r.addr, r.size, AllocAt(a, n, addr), n)
  {
    var b := Reserve(a, n, addr);
    HousedApartFromNew(a, n, addr, r);
    StillHoused(b, Last(b).used + n, r);
  }

  lemma AllocKeeps(a: Arena, n: nat, addr: int)
    requires Inv(a) && Fresh(a, n, addr)
    ensures Inv(Alloc(a, n, addr))
    ensures forall r :: r in a.live ==> Apart(r.addr, r.size, AllocAt(a, n, addr), n)
  {
    hide Housed, BlocksValid, LiveValid, Reserve, Bump, AllocAt, Total;
    var c := Bump(Reserve(a, n, addr), n);
    AllocHouses(a, n, addr);
    forall r | r in a.live
      ensures Housed(c.blocks, r) && Apart(r.addr, r.size, AllocAt(a, n, addr), n)
    {
      AllocRehouses(a, n, addr, r);
    }
    Rehouse(a.blocks, a.live, c.blocks, a.live);
    HoldOne(c.blocks, a.live, Region(AllocAt(a, n, addr), n));
  }

  /** Resizing the last block below the region at its end leaves the others housed. */
  lemma OthersHoused(a: Arena, r: Region, used: nat)
    requires Inv(a) && a.blocks != [] && (r.size > 0 ==> r in a.live)
    requires Last(a).data <= r.addr && r.addr + r.size == Last(a).data + Last(a).used
    requires r.addr <= Last(a).data + used <= Last(a).data + Last(a).size
    ensures var b := WithLast(a, Last(a).(used := used));
            forall s :: s in a.live && s != r ==>
              Housed(b.blocks, s) && Apart(s.addr, s.size, r.addr, Last(a).data + used - r.addr)
  {
    forall s | s in a.live && s != r
      ensures var b := WithLast(a, Last(a).(used := used));
              Housed(b.blocks, s) && Apart(s.addr, s.size, r.addr, Last(a).data + used - r.addr)
    {
      HousedInLast(a, s);
      StillHoused(a, used, s);
    }
  }

  lemma Rehoused(a: Arena, r: Region)
    requires LiveValid(a.blocks, a.live)
    ensures LiveValid(a.blocks, a.live - {r})
  {
  }

  lemma FreeKeeps(a: Arena, r: Region)
    requires Inv(a) && (r.size > 0 ==> r in a.live)
    ensures Inv(Free(a, r))
  {
    assert a.blocks != [] ==> Last(a).used <= Last(a).size;
    hide Housed, BlocksValid, LiveValid, Total, Apart;
    if !MostRecent(a, r) {
      Rehoused(a, r);
    } else {
      LastResized(a, Last(a).used - r.size);
      OthersHoused(a, r, Last(a).used - r.size);
      Rehouse(a.blocks, a.live, Free(a, r).blocks, a.live - {r});
    }
  }

  lemma ReallocInPlaceKeeps(a: Arena, r: Region, newsize: nat)
    requires Inv(a) && (r.size > 0 ==> r in a.live) && InPlace(a, r, newsize)
    ensures Inv(Realloc(a, r, newsize, 0))
  {
    hide Housed, BlocksValid, LiveValid, Total;
    var used := r.addr - Last(a).data + newsize;
    var b := WithLast(a, Last(a).(used := used));
    var r' := Region(r.addr, newsize);
    LastResized(a, used);
    OthersHoused(a, r, used);
    LastHouses(b, r');
    hide WithLast;
    Rehouse(a.blocks, a.live, b.blocks, a.live - {r});
    HoldOne(b.blocks, a.live - {r}, r');
    assert Realloc(a, r, newsize, 0) == Hold(Drop(b, r), r');
  }

  lemma LastHouses(b: Arena, r: Region)
    requires b.blocks != [] && InBlock(Last(b), r)
    ensures Housed(b.blocks, r)
  {
  }

  lemma ReallocMovesKeeps(a: Arena, r: Region, newsize: nat, addr: int)
    requires Inv(a) && Fresh(a, newsize, addr) && !InPlace(a, r, newsize)
    ensures Inv(Realloc(a, r, newsize, addr))
  {
    AllocKeeps(a, newsize, addr);
  }

  // ----- Where the bytes come from --------------------------------------------------------------------------

  /** The most recent allocation ends where the used part of the last block ends. */
  predicate EndsLast(a: Arena, r: Region) { a.blocks != [] && r.addr + r.size == Last(a).data + Last(a).used }

  /** The last block has room for n more bytes. */
  predicate Fits(a: Arena, n: nat) { a.blocks != [] && Last(a).used + n <= Last(a).size }

  /** The blocks, with that much of the last one used. */
  function Used(a: Arena, used: nat): seq<Block>
    requires a.blocks != []
  {
    a.blocks[|a.blocks| - 1 := Last(a).(used := used)]
  }

  /** A request that fits is taken from the last block, behind what is used of it. Otherwise one
      block is added, just large enough for the request or of the usual size, and the request is
      at its front. */
  lemma AllocPlaces(a: Arena, n: nat, addr: int)
    ensures Fits(a, n) ==>
              && AllocAt(a, n, addr) == Last(a).data + Last(a).used
              && Alloc(a, n, addr).blocks == Used(a, Last(a).used + n)
              && Alloc(a, n, addr).bytesAllocated == a.bytesAllocated
    ensures !Fits(a, n) ==>
              var size := if n > a.blockSize then n else a.blockSize;
              && AllocAt(a, n, addr) == addr
              && Alloc(a, n, addr).blocks == a.blocks + [Block(addr, size, n)]
              && Alloc(a, n, addr).bytesAllocated == a.bytesAllocated + size
  {
  }

  /** A region of bytes is resized where it is exactly if it ends the used part of the last block
      and a byte of that block is left behind it; then no memory is added. Otherwise it moves to
      where an allocation would be. */
  lemma ReallocPlaces(a: Arena, r: Region, newsize: nat, addr: int)
    requires Inv(a) && a.blocks != [] && r in a.live
    ensures var b, out := Realloc(a, r, newsize, addr), ReallocAt(a, r, newsize, addr);
            if EndsLast(a, r) && Last(a).used - r.size + newsize < Last(a).size && InBlock(Last(a), r) then
              && out == r.addr && b.bytesAllocated == a.bytesAllocated
              && b.blocks == Used(a, Last(a).used - r.size + newsize)
            else out == AllocAt(a, newsize, addr) && b.blocks == Alloc(a, newsize, addr).blocks
  {
    HousedInLast(a, r);
  }

  /** Only the most recent allocation is taken back; any other leaves the blocks as they are. */
  lemma FreeReclaims(a: Arena, r: Region)
    requires Inv(a) && r in a.live
    ensures var b := Free(a, r);
            && b.bytesAllocated == a.bytesAllocated
            && b.blocks == if EndsLast(a, r) && InBlock(Last(a), r)
                           then Used(a, Last(a).used - r.size) else a.blocks
  {
    if a.blocks != [] { HousedInLast(a, r); }
  }

  // ----- The check in Realloc ---------------------------------------------------------------------------

  /** The DCHECK of `Realloc`: a region in the last block lies in its used part. */
  predicate ReallocChecked(a: Arena, r: Region)
    requires a.blocks != []
  {
    Last(a).data <= r.addr < Last(a).data + Last(a).size ==> r.addr + r.size <= Last(a).data + Last(a).used
  }

  /** It holds for every live region: such a region lies in the used part of the block it is in.
      For an empty region, which nothing ties to a block, it comes down to where its address is. */
  lemma ReallocCheckExact(a: Arena, r: Region)
    requires Inv(a) && a.blocks != [] && (r.size > 0 ==> r in a.live)
    ensures ReallocChecked(a, r)
            <==> r.size > 0 || !(Last(a).data + Last(a).used < r.addr < Last(a).data + Last(a).size)
  {
    if r.size > 0 {
      HousedInLast(a, r);
    }
  }

  /** And there are runs after which it fails: allocate four bytes and then none, free the four,
      and the address of the empty allocation lies beyond the used part. */
  lemma EmptyAllocationFailsCheck(mem: Memory)
    ensures var evs := [DoAlloc(4, 0), DoAlloc(0, 0), DoFree(Region(0, 4))];
            var a := Exec(Empty(64, mem), evs);
            && Runs(Empty(64, mem), evs)
            && AllocAt(Exec(Empty(64, mem), evs[..1]), 0, 0) == 4
            && a.blocks != [] && !ReallocChecked(a, Region(4, 0))
  {
    var a0 := Empty(64, mem);
    var a1 := Arena(64, [Block(0, 64, 4)], 64, mem, {Region(0, 4)});
    var a3 := Arena(64, [Block(0, 64, 0)], 64, mem, {});
    assert Step(a0, DoAlloc(4, 0)) == a1;
    assert Step(a1, DoAlloc(0, 0)) == a1;
    assert Step(a1, DoFree(Region(0, 4))) == a3;
    assert Enabled(a0, DoAlloc(4, 0)) && Enabled(a1, DoAlloc(0, 0)) && Enabled(a1, DoFree(Region(0, 4)));
    assert AllocAt(a1, 0, 0) == 4;
    hide Step, Enabled, AllocAt;
    ThreeSteps(a0, DoAlloc(4, 0), DoAlloc(0, 0), DoFree(Region(0, 4)));
  }

  lemma ThreeSteps(a: Arena, e: Event, f: Event, g: Event)
    requires Enabled(a, e) && Enabled(Step(a, e), f) && Enabled(Step(Step(a, e), f), g)
    ensures Runs(a, [e, f, g]) && Exec(a, [e, f, g]) == Step(Step(Step(a, e), f), g)
    ensures Exec(a, [e, f, g][..1]) == Step(a, e)
  {
    hide Step, Enabled;
    var b := Step(a, e);
    var c := Step(b, f);
    var d := Step(c, g);
    assert [e, f, g][1..] == [f, g] && [f, g][1..] == [g] && [g][1..] == [] && [e, f, g][..1] == [e] && [e][1..] == [];
    assert Runs(d, []) && Exec(d, []) == d;
    assert Runs(c, [g]) && Exec(c, [g]) == d;
    assert Runs(b, [f, g]) && Exec(b, [f, g]) == d;
    assert Exec(b, []) == b && Exec(a, [e]) == b;
  }

  // ----- What happens to the bytes ----------------------------------------------------------------------

  /** The n bytes at addr. */
  function Bytes(m: Memory, addr: int, n: nat): (s: seq<int>)
    ensures |s| == n && forall k :: 0 <= k < n ==> s[k] == m(addr + k)
  {
    seq(n, k => m(addr + k))
  }

  /** The bytes of region r are the same in both memories. */
  ghost predicate SameBytes(m: Memory, m': Memory, r: Region) {
    forall x :: r.addr <= x < r.addr + r.size ==> m'(x) == m(x)
  }

  lemma CopyElsewhere(m: Memory, dst: int, src: int, n: nat, size: nat, r: Region)
    requires n <= size && Apart(r.addr, r.size, dst, size) && r.size > 0
    ensures SameBytes(m, Copy(m, dst, src, n), r)
  {
  }

  /** `Realloc` hands the first oldsize bytes over, wherever the region ends up. */
  lemma ReallocCopies(a: Arena, r: Region, newsize: nat, addr: int)
    requires Inv(a) && Fresh(a, newsize, addr) && (r.size > 0 ==> r in a.live)
    requires InPlace(a, r, newsize) || newsize >= r.size
    ensures var b := Realloc(a, r, newsize, addr);
            && (newsize > 0 ==> Region(ReallocAt(a, r, newsize, addr), newsize) in b.live)
            && Bytes(b.mem, ReallocAt(a, r, newsize, addr), r.size) == Bytes(a.mem, r.addr, r.size)
  {
    if !InPlace(a, r, newsize) {
      AllocKeeps(a, newsize, addr);
      hide Inv, Reserve, AllocAt;
      CopyDelivers(a.mem, AllocAt(a, newsize, addr), r.addr, r.size);
    }
  }

  /** `Memdup` returns a held region with exactly the given bytes. */
  lemma MemdupStores(a: Arena, bytes: seq<int>, addr: int)
    ensures Bytes(Memdup(a, bytes, addr).mem, AllocAt(a, |bytes|, addr), |bytes|) == bytes
    ensures bytes != [] ==> Region(AllocAt(a, |bytes|, addr), |bytes|) in Memdup(a, bytes, addr).live
  {
    hide AllocAt, Reserve;
  }

  /** Freeing what was just allocated takes the arena back, as long as no block was added. */
  lemma FreeUndoesAlloc(a: Arena, n: nat, addr: int)
    requires Inv(a) && Fresh(a, n, addr) && !NeedsBlock(a, n)
    ensures Free(Alloc(a, n, addr), Region(AllocAt(a, n, addr), n)) == a
  {
    AllocKeeps(a, n, addr);
    var r := Region(AllocAt(a, n, addr), n);
    assert n > 0 ==> r !in a.live;
    var b := Alloc(a, n, addr);
    assert b.blocks[..|b.blocks| - 1] == a.blocks[..|a.blocks| - 1];
    assert a.blocks == a.blocks[..|a.blocks| - 1] + [Last(a)];
    assert b.live - {r} == a.live;
  }

  lemma CopyDelivers(m: Memory, dst: int, src: int, n: nat)
    ensures Bytes(Copy(m, dst, src, n), dst, n) == Bytes(m, src, n)
  {
    hide Copy, Bytes;
    var b, c := Bytes(Copy(m, dst, src, n), dst, n), Bytes(m, src, n);
    forall k | 0 <= k < n
      ensures b[k] == c[k]
    {
      CopyAt(m, dst, src, n, k);
    }
  }

  lemma CopyAt(m: Memory, dst: int, src: int, n: nat, k: nat)
    requires k < n
    ensures Copy(m, dst, src, n)(dst + k) == m(src + k)
  {
    assert src + (dst + k - dst) == src + k;
  }

  // ----- Runs ---------------------------------------------------------------------------------------------

  datatype Event =
    | DoAlloc(n: nat, addr: int)
    | DoRealloc(r: Region, newsize: nat, addr: int)
    | DoMemdup(bytes: seq<int>, addr: int)
    | DoFree(r: Region)
    | DoReset
    | DoWrite(r: Region, bytes: seq<int>)

  /** What callers owe: they pass regions they hold, and a region that has to move does not
      shrink, because the whole of it is copied. */
  ghost predicate Enabled(a: Arena, e: Event) {
    match e
    case DoAlloc(n, addr) => Fresh(a, n, addr)
    case DoRealloc(r, newsize, addr) =>
      && Fresh(a, newsize, addr) && a.blocks != [] && (r.size > 0 ==> r in a.live)
      && (InPlace(a, r, newsize) || newsize >= r.size)
    case DoMemdup(bytes, addr) => Fresh(a, |bytes|, addr)
    case DoFree(r) => r.size > 0 ==> r in a.live
    case DoReset => true
    case DoWrite(r, bytes) => r in a.live && |bytes| == r.size
  }

  function Step(a: Arena, e: Event): Arena {
    match e
    case DoAlloc(n, addr) => Alloc(a, n, addr)
    case DoRealloc(r, newsize, addr) => Realloc(a, r, newsize, addr)
    case DoMemdup(bytes, addr) => Memdup(a, bytes, addr)
    case DoFree(r) => Free(a, r)
    case DoReset => Reset(a)
    case DoWrite(r, bytes) => Write(a, r, bytes)
  }

  lemma StepKeepsInv(a: Arena, e: Event)
    requires Inv(a) && Enabled(a, e)
    ensures Inv(Step(a, e))
  {
    match e
    case DoAlloc(n, addr) => AllocKeeps(a, n, addr);
    case DoRealloc(r, newsize, addr) =>
      if InPlace(a, r, newsize) {
        ReallocInPlaceKeeps(a, r, newsize);
      } else {
        ReallocMovesKeeps(a, r, newsize, addr);
      }
    case DoMemdup(bytes, addr) => AllocKeeps(a, |bytes|, addr);
    case DoFree(r) => FreeKeeps(a, r);
    case DoReset =>
    case DoWrite(r, bytes) =>
  }

  /** The event neither gives up region s nor writes to it. */
  predicate Spares(e: Event, s: Region) {
    match e
    case DoRealloc(r, _, _) => r != s
    case DoFree(r) => r != s
    case DoReset => false
    case DoWrite(r, _) => r != s
    case _ => true
  }

  lemma StepSpares(a: Arena, e: Event, s: Region)
    requires Inv(a) && Enabled(a, e) && s in a.live && Spares(e, s)
    ensures s in Step(a, e).live && SameBytes(a.mem, Step(a, e).mem, s)
  {
    match e
    case DoRealloc(r, newsize, addr) =>
      if InPlace(a, r, newsize) {
        hide Inv, Fresh;
      } else {
        MoveSpares(a, r, newsize, addr, s);
      }
    case DoMemdup(bytes, addr) => MemdupSpares(a, bytes, addr, s);
    case DoWrite(r, bytes) => WriteSpares(a, r, bytes, s);
    case _ =>
      hide Inv, Fresh, Reserve, AllocAt;
  }

  lemma MoveSpares(a: Arena, r: Region, newsize: nat, addr: int, s: Region)
    requires Inv(a) && Fresh(a, newsize, addr) && s in a.live && s != r && !InPlace(a, r, newsize) && r.size <= newsize
    ensures s in Realloc(a, r, newsize, addr).live && SameBytes(a.mem, Realloc(a, r, newsize, addr).mem, s)
  {
    assert s.size > 0;
    AllocKeeps(a, newsize, addr);
    hide Inv, Fresh, Reserve, AllocAt, SameBytes, Copy, InPlace;
    CopyElsewhere(a.mem, AllocAt(a, newsize, addr), r.addr, r.size, newsize, s);
  }

  lemma MemdupSpares(a: Arena, bytes: seq<int>, addr: int, s: Region)
    requires Inv(a) && Fresh(a, |bytes|, addr) && s in a.live
    ensures s in Memdup(a, bytes, addr).live && SameBytes(a.mem, Memdup(a, bytes, addr).mem, s)
  {
    assert s.size > 0;
    AllocKeeps(a, |bytes|, addr);
    hide Inv, Fresh, Reserve, AllocAt;
  }

  lemma WriteSpares(a: Arena, r: Region, bytes: seq<int>, s: Region)
    requires Inv(a) && r in a.live && s in a.live && s != r && |bytes| == r.size
    ensures SameBytes(a.mem, Write(a, r, bytes).mem, s)
  {
    assert Apart(r.addr, r.size, s.addr, s.size) && s.size > 0 && r.size > 0;
    hide Inv;
  }

  /** All about one call of `Realloc`. */
  lemma ReallocLaws(a: Arena, r: Region, newsize: nat, addr: int)
    requires Inv(a) && Enabled(a, DoRealloc(r, newsize, addr))
    ensures var b, out := Realloc(a, r, newsize, addr), ReallocAt(a, r, newsize, addr);
            && a.blocks != [] && Inv(b) && Fresh(a, newsize, addr) && (r.size > 0 ==> r in a.live)
            && (newsize > 0 ==> Region(out, newsize) in b.live)
            && Bytes(b.mem, out, r.size) == Bytes(a.mem, r.addr, r.size)
            && forall s :: s in a.live && s != r ==> s in b.live && SameBytes(a.mem, b.mem, s)
  {
    StepKeepsInv(a, DoRealloc(r, newsize, addr));
    ReallocCopies(a, r, newsize, addr);
    forall s | s in a.live && s != r
      ensures s in Realloc(a, r, newsize, addr).live && SameBytes(a.mem, Realloc(a, r, newsize, addr).mem, s)
    {
      StepSpares(a, DoRealloc(r, newsize, addr), s);
    }
    hide Inv, Bytes, SameBytes, Realloc, ReallocAt;
  }

  lemma MemdupLaws(a: Arena, bytes: seq<int>, addr: int)
    requires Inv(a) && Fresh(a, |bytes|, addr)
    ensures var b, out := Memdup(a, bytes, addr), AllocAt(a, |bytes|, addr);
            && Inv(b) && Bytes(b.mem, out, |bytes|) == bytes && (bytes != [] ==> Region(out, |bytes|) in b.live)
            && forall s :: s in a.live ==> s in b.live && SameBytes(a.mem, b.mem, s)
  {
    StepKeepsInv(a, DoMemdup(bytes, addr));
    MemdupStores(a, bytes, addr);
    forall s | s in a.live
      ensures s in Memdup(a, bytes, addr).live && SameBytes(a.mem, Memdup(a, bytes, addr).mem, s)
    {
      StepSpares(a, DoMemdup(bytes, addr), s);
    }
    hide Inv, Bytes, SameBytes, Memdup, AllocAt;
  }

  ghost predicate Runs(a: Arena, evs: seq<Event>)
    decreases |evs|
  {
    evs == [] || (Enabled(a, evs[0]) && Runs(Step(a, evs[0]), evs[1..]))
  }

  function Exec(a: Arena, evs: seq<Event>): Arena
    decreases |evs|
  {
    if evs == [] then a else Exec(Step(a, evs[0]), evs[1..])
  }

  function Empty(blockSize: nat, mem: Memory): Arena { Arena(blockSize, [], 0, mem, {}) }

  /** Over every run: held regions lie within blocks and apart from each other, and the
      count of bytes allocated is the sum of the block sizes. */
  lemma {:induction false} RunKeepsInv(a: Arena, evs: seq<Event>)
    requires Inv(a) && Runs(a, evs)
    ensures Inv(Exec(a, evs))
    decreases |evs|
  {
    if evs != [] {
      StepKeepsInv(a, evs[0]);
      RunKeepsInv(Step(a, evs[0]), evs[1..]);
    }
  }

  lemma EveryRunIsSafe(blockSize: nat, mem: Memory, evs: seq<Event>)
    requires Runs(Empty(blockSize, mem), evs)
    ensures Inv(Exec(Empty(blockSize, mem), evs))
  {
    RunKeepsInv(Empty(blockSize, mem), evs);
  }

  /** Over every run: a region that is neither given up nor written to keeps its bytes,
      whatever else is allocated, moved, freed or written. */
  lemma {:induction false} UntouchedBytesKept(a: Arena, evs: seq<Event>, s: Region)
    requires Inv(a) && Runs(a, evs) && s in a.live
    requires forall i :: 0 <= i < |evs| ==> Spares(evs[i], s)
    ensures s in Exec(a, evs).live && SameBytes(a.mem, Exec(a, evs).mem, s)
    decreases |evs|
  {
    if evs != [] {
      var b := Step(a, evs[0]);
      StepKeepsInv(a, evs[0]);
      StepSpares(a, evs[0], s);
      hide Inv, Enabled, Step;
      UntouchedBytesKept(b, evs[1..], s);
    }
  }
}
