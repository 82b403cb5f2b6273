/** The arena object (base/arena.cc): its methods, in the order of the source. Each keeps the
    invariant of ArenaModel, takes the step that its theorems about runs are about, and says
    what the caller gets. `addr` is the address operator new would return. */
module Arenas {
  import opened ArenaModel
  import opened Basics

  class UnsafeArena {
    const blockSize: nat
    var blocks: seq<Block>
    var bytesAllocated: nat
    var mem: Memory
    ghost var live: set<Region>

    ghost function View(): ArenaModel.Arena
      reads this
    {
      ArenaModel.Arena(blockSize, blocks, bytesAllocated, mem, live)
    }

    constructor (blockSize: nat, mem: Memory)
      ensures View() == Empty(blockSize, mem) && Inv(View())
    {
      this.blockSize := blockSize;
      blocks, bytesAllocated, this.mem, live := [], 0, mem, {};
    }

    /** The new region is in bounds and apart from every region that was live. */
    method Alloc(size: nat, addr: int) returns (out: int)
      requires Inv(View()) && Fresh(View(), size, addr)
      modifies this`blocks, this`bytesAllocated, this`live
      ensures Inv(View()) && View() == ArenaModel.Alloc(old(View()), size, addr)
      ensures out == AllocAt(old(View()), size, addr)
      ensures forall r :: r in old(live) ==> Apart(r.addr, r.size, out, size)
      ensures live == if size > 0 then old(live) + {Region(out, size)} else old(live)
    {
      AllocKeeps(View(), size, addr);
      hide Inv, Fresh, ArenaModel.Reserve, AllocAt, Apart, Bump;
      out := TakeSpace(size, addr);
      live := if size > 0 then live + {Region(out, size)} else live;
    }

    method TakeSpace(size: nat, addr: int) returns (out: int)
      requires Inv(View()) && Fresh(View(), size, addr)
      modifies this`blocks, this`bytesAllocated
      ensures View() == Bump(ArenaModel.Reserve(old(View()), size, addr), size)
      ensures out == AllocAt(old(View()), size, addr)
    {
      hide Inv, Fresh, ArenaModel.Reserve, Bump, Last;
      Reserve(size, addr);
      out := TakeFromLast(size);
    }

    method TakeFromLast(size: nat) returns (out: int)
      requires blocks != []
      modifies this`blocks
      ensures View() == Bump(old(View()), size) && out == Last(old(View())).data + Last(old(View())).used
    {
      var n := |blocks| - 1;
      var b := blocks[n];
      out := b.data + b.used;
      blocks := blocks[..n] + [b.(used := b.used + size)];
    }

    /** The bytes of the old region are at the returned address, every other live region keeps
        its place and its bytes, and the DCHECK holds for every region that has bytes. */
    method Realloc(original: int, oldsize: nat, newsize: nat, addr: int) returns (out: int)
      requires Inv(View()) && Enabled(View(), DoRealloc(Region(original, oldsize), newsize, addr))
      modifies this
      ensures Inv(View()) && View() == ArenaModel.Realloc(old(View()), Region(original, oldsize), newsize, addr)
      ensures out == ReallocAt(old(View()), Region(original, oldsize), newsize, addr)
      ensures newsize > 0 ==> Region(out, newsize) in live
      ensures Bytes(mem, out, oldsize) == old(Bytes(mem, original, oldsize))
      ensures forall s :: s in old(live) && s != Region(original, oldsize) ==> s in live && SameBytes(old(mem), mem, s)
    {
      ghost var r := Region(original, oldsize);
      ReallocLaws(View(), r, newsize, addr);
      ReallocCheckExact(View(), r);
      hide Inv, Enabled, Fresh, Bytes, SameBytes, ArenaModel.Realloc, ReallocAt;
      var last := blocks[|blocks| - 1];
      if last.data <= original && original < last.data + last.size {
        assert oldsize > 0 ==> original + oldsize <= last.data + last.used;
        if original + oldsize == last.data + last.used {
          if original + newsize < last.data + last.size {
            Resize(Region(original, oldsize), newsize, addr);
            out := original;
            return;
          }
        }
      }
      out := Move(original, oldsize, newsize, addr);
    }

    /** `last.used += newsize - oldsize`. */
    method Resize(r: Region, newsize: nat, ghost addr: int)
      requires InPlace(View(), r, newsize)
      modifies this`blocks, this`live
      ensures View() == ArenaModel.Realloc(old(View()), r, newsize, addr)
      ensures r.addr == ReallocAt(old(View()), r, newsize, addr)
    {
      var n := |blocks| - 1;
      blocks := blocks[..n] + [blocks[n].(used := blocks[n].used + newsize - r.size)];
      live := live - {r};
      live := if newsize > 0 then live + {Region(r.addr, newsize)} else live;
    }

    method Move(original: int, oldsize: nat, newsize: nat, addr: int) returns (out: int)
      requires Inv(View()) && Fresh(View(), newsize, addr) && !InPlace(View(), Region(original, oldsize), newsize)
      modifies this
      ensures View() == ArenaModel.Realloc(old(View()), Region(original, oldsize), newsize, addr)
      ensures out == ReallocAt(old(View()), Region(original, oldsize), newsize, addr)
    {
      hide Inv, Fresh, ArenaModel.Alloc, AllocAt;
      out := Alloc(newsize, addr);
      mem := Copy(mem, out, original, oldsize);
      live := live - {Region(original, oldsize)};
    }

    /** The caller gets a live region that holds the given bytes. */
    method Memdup(data: seq<int>, addr: int) returns (out: int)
      requires Inv(View()) && Fresh(View(), |data|, addr)
      modifies this
      ensures Inv(View()) && View() == ArenaModel.Memdup(old(View()), data, addr)
      ensures Bytes(mem, out, |data|) == data && (data != [] ==> Region(out, |data|) in live)
      ensures forall s :: s in old(live) ==> s in live && SameBytes(old(mem), mem, s)
    {
      MemdupLaws(View(), data, addr);
      hide Inv, Fresh, Bytes, SameBytes;
      out := Alloc(|data|, addr);
      mem := Store(mem, out, data);
    }

    /** Gives up one region and disturbs no other. */
    method Free(data: int, size: nat)
      requires Inv(View()) && Enabled(View(), DoFree(Region(data, size)))
      modifies this`blocks, this`live
      ensures Inv(View()) && View() == ArenaModel.Free(old(View()), Region(data, size))
      ensures live == old(live) - {Region(data, size)}
    {
      FreeKeeps(View(), Region(data, size));
      hide Inv, Enabled, LiveValid, BlocksValid;
      TakeBack(data, size);
      hide MostRecent, WithLast;
      live := live - {Region(data, size)};
    }

    method TakeBack(data: int, size: nat)
      modifies this`blocks
      ensures var a, r := old(View()), Region(data, size);
              View() == if MostRecent(a, r) then WithLast(a, Last(a).(used := Last(a).used - size)) else a
    {
      if blocks == [] {
        return;
      }
      var n := |blocks| - 1;
      var b := blocks[n];
      if size <= b.used && data + size == b.data + b.used {
        blocks := blocks[..n] + [b.(used := b.used - size)];
      }
    }

    method Reset()
      modifies this`blocks, this`bytesAllocated, this`live
      ensures Inv(View()) && View() == ArenaModel.Reset(old(View()))
      ensures blocks == [] && bytesAllocated == 0 && live == {}
    {
      blocks := [];
      bytesAllocated := 0;
      live := {};
    }

    /** Makes room for the request in the last block, whatever is live. */
    method Reserve(additionalSpace: nat, addr: int)
      requires Inv(View()) && Fresh(View(), additionalSpace, addr)
      modifies this`blocks, this`bytesAllocated
      ensures Inv(View()) && View() == ArenaModel.Reserve(old(View()), additionalSpace, addr)
      ensures blocks != [] && Last(View()).used + additionalSpace <= Last(View()).size
      ensures bytesAllocated == Total(blocks)
    {
      ReserveKeeps(View(), additionalSpace, addr);
      assert Inv(ArenaModel.Reserve(View(), additionalSpace, addr)) ==>
          ArenaModel.Reserve(View(), additionalSpace, addr).bytesAllocated
          == Total(ArenaModel.Reserve(View(), additionalSpace, addr).blocks);
      hide Inv, Fresh, Total;
      if blocks == [] {
        AllocBlock(Max(additionalSpace, blockSize), addr);
      } else {
        var last := blocks[|blocks| - 1];
        if last.size < last.used + additionalSpace {
          AllocBlock(Max(additionalSpace, blockSize), addr);
        }
      }
    }

    method AllocBlock(size: nat, addr: int)
      modifies this`blocks, this`bytesAllocated
      ensures View() == ArenaModel.AllocBlock(old(View()), size, addr)
    {
      blocks := blocks + [Block(addr, size, 0)];
      bytesAllocated := bytesAllocated + size;
    }
  }

  /** An arena driven through any run of calls is in the state the model reaches, so
      EveryRunIsSafe and UntouchedBytesKept are about this object. */
  method Drive(blockSize: nat, mem: Memory, evs: seq<Event>) returns (a: UnsafeArena)
    requires Runs(Empty(blockSize, mem), evs)
    ensures fresh(a) && Inv(a.View()) && a.View() == Exec(Empty(blockSize, mem), evs)
  {
    a := new UnsafeArena(blockSize, mem);
    hide Inv, Enabled, Step;
    var i := 0;
    assert evs[0..] == evs;
    while i < |evs|
      invariant 0 <= i <= |evs| && fresh(a) && Inv(a.View())
      invariant Runs(a.View(), evs[i..]) && Exec(a.View(), evs[i..]) == Exec(Empty(blockSize, mem), evs)
    {
      assert evs[i..][0] == evs[i] && evs[i..][1..] == evs[i + 1..];
      Dispatch(a, evs[i]);
      i := i + 1;
    }
  }

  /** Any call, or a write of the client to a region it holds. */
  method Dispatch(a: UnsafeArena, e: Event)
    requires Inv(a.View()) && Enabled(a.View(), e)
    modifies a
    ensures Inv(a.View()) && a.View() == Step(old(a.View()), e)
  {
    StepKeepsInv(a.View(), e);
    hide Inv, Fresh;
    match e
    case DoAlloc(n, addr) => var _ := a.Alloc(n, addr);
    case DoRealloc(r, newsize, addr) => var _ := a.Realloc(r.addr, r.size, newsize, addr);
    case DoMemdup(bytes, addr) => var _ := a.Memdup(bytes, addr);
    case DoFree(r) => a.Free(r.addr, r.size);
    case DoReset => a.Reset();
    case DoWrite(r, bytes) => a.mem := Store(a.mem, r.addr, bytes);
  }
}
