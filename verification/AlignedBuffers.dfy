/** The buffer classes, working in one machine memory. */
module AlignedBuffers {
  import opened Words
  import opened Memory
  import opened Alignment
  import opened Buffers

  /** Bytes by address, and an allocator. Which block the allocator returns is up to it: `chunk`. */
  class MachineMemory {
    const cells: array<byte>
    var heap: map<nat, nat>

    ghost function Value(): Mem
      reads this, cells
    {
      Mem(cells[..], heap)
    }

    constructor (cells: array<byte>, heap: map<nat, nat>)
      ensures this.cells == cells && this.heap == heap
    {
      this.cells := cells;
      this.heap := heap;
    }

    method Malloc(size: nat, chunk: nat) returns (block: nat)
      requires chunk !in heap && chunk + size <= cells.Length
      modifies this`heap
      ensures block == chunk && heap == old(heap)[chunk := size]
    {
      heap := heap[chunk := size];
      block := chunk;
    }

    method Calloc(size: nat, chunk: nat) returns (block: nat)
      requires chunk !in heap && chunk + size <= cells.Length
      modifies this`heap, cells
      ensures block == chunk && heap == old(heap)[chunk := size]
      ensures cells[..] == Overwrite(old(cells[..]), chunk, Zeros(size))
    {
      heap := heap[chunk := size];
      block := chunk;
      StoreBytes(cells, chunk, Zeros(size));
    }

    method Free(block: nat)
      requires block in heap
      modifies this`heap
      ensures heap == old(heap) - {block}
    {
      heap := heap - {block};
    }
  }

  class GenericInputBuffer {
    const inner: nat
    const origBuff: nat
    var ptr: nat

    constructor (memory: MachineMemory, s: Site)
      requires Placeable(memory.Value(), s)
      modifies memory, memory.cells
      ensures memory.Value() == AfterBuild(old(memory.Value()), s, true)
      ensures ptr == Placed(s) && origBuff == s.orig && inner == s.inner
    {
      inner := s.inner;
      origBuff := s.orig;
      ptr := s.orig;
      new;
      hide Aligned, OnBoundary, Overwrite, Zeros;
      if !Aligned(s.orig, s.align) {
        if s.size <= s.stackSize {
          ptr := s.inner;
        } else {
          ptr := memory.Malloc(s.size, s.chunk);
        }
        MemCopyWithin(memory.cells, ptr, s.orig, s.size);
      }
    }

    method Get() returns (p: nat)
      ensures p == ptr
    {
      p := ptr;
    }

    method Destroy(memory: MachineMemory)
      requires ptr != origBuff && ptr != inner ==> ptr in memory.heap
      modifies memory`heap
      ensures forall b: Buffer :: b.ptr == ptr && b.orig == origBuff && b.inner == inner ==>
        memory.Value() == AfterDelete(old(memory.Value()), b)
    {
      if ptr != origBuff && ptr != inner {
        memory.Free(ptr);
      }
    }
  }

  class GenericOutputBuffer {
    const inner: nat
    const origBuff: nat
    const size: nat
    var ptr: nat

    constructor (memory: MachineMemory, s: Site)
      requires Placeable(memory.Value(), s)
      modifies memory, memory.cells
      ensures memory.Value() == AfterBuild(old(memory.Value()), s, false)
      ensures ptr == Placed(s) && origBuff == s.orig && size == s.size && inner == s.inner
    {
      inner := s.inner;
      origBuff := s.orig;
      size := s.size;
      ptr := s.orig;
      new;
      hide Aligned, OnBoundary, Overwrite, Zeros;
      if !Aligned(s.orig, s.align) {
        if s.size <= s.stackSize {
          ptr := s.inner;
        } else {
          ptr := memory.Calloc(s.size, s.chunk);
        }
      }
    }

    method Get() returns (p: nat)
      ensures p == ptr
    {
      p := ptr;
    }

    /** Copies the client's bytes back, if they were written elsewhere. */
    method Flush(memory: MachineMemory)
      requires ptr + size <= memory.cells.Length && origBuff + size <= memory.cells.Length
      requires ptr != origBuff ==> Apart(ptr, size, origBuff, size)
      modifies memory.cells
      ensures forall b: Buffer :: b.ptr == ptr && b.orig == origBuff && b.size == size ==>
        memory.Value() == AfterFlush(old(memory.Value()), b)
    {
      if ptr != origBuff {
        MemCopyWithin(memory.cells, origBuff, ptr, size);
      }
    }

    method Destroy(memory: MachineMemory)
      requires ptr != origBuff && ptr != inner ==> ptr in memory.heap
      modifies memory`heap
      ensures forall b: Buffer :: b.ptr == ptr && b.orig == origBuff && b.inner == inner ==>
        memory.Value() == AfterDelete(old(memory.Value()), b)
    {
      if ptr != origBuff && ptr != inner {
        memory.Free(ptr);
      }
    }
  }

  /** The destination holds the data, and nothing outside it and the buffer's own storage has changed. */
  ghost predicate ChangedTo(before: seq<byte>, after: seq<byte>, s: Site, data: seq<byte>)
    requires AllowedAlignment(s.align) && |data| == s.size
  {
    |before| == |after| && forall a :: 0 <= a < |after| ==>
      (Within(a, s.orig, s.size) ==> after[a] == data[a - s.orig])
      && (!Within(a, s.orig, s.size) && !Within(a, Placed(s), s.size) ==> after[a] == before[a])
  }

  /** Memory when an output buffer has been built, filled with data, and flushed. */
  function Filled(m: Mem, s: Site, data: seq<byte>): Mem
    requires Placeable(m, s) && |data| == s.size
    requires Placed(s) + s.size <= |m.cells|
  {
    var built := AfterBuild(m, s, false);
    AfterFlush(built.(cells := Overwrite(built.cells, Placed(s), data)), Built(m, s, false))
  }

  lemma FilledCells(m: Mem, s: Site, data: seq<byte>)
    requires Placeable(m, s) && |data| == s.size && Placed(s) + s.size <= |m.cells|
    ensures ChangedTo(m.cells, Filled(m, s, data).cells, s, data)
  {
    BuiltBytes(m, s);
    var cells, p := AfterBuild(m, s, false).cells, Placed(s);
    assert Filled(m, s, data).cells == CopiedBack(Overwrite(cells, p, data), p, s.orig, s.size);
    assert AllowedAlignment(s.align);
    hide AfterBuild, Placed, Overwrite, Initial, Filled, CopiedBack, Placeable;
    CopyingAllBack(cells, p, s.orig, s.size, data);
  }

  /** What construction does to the heap, destruction undoes. */
  lemma HeapRestored(m: Mem, s: Site, data: seq<byte>)
    requires Placeable(m, s) && |data| == s.size && Placed(s) + s.size <= |m.cells|
    ensures var b, filled := Built(m, s, false), Filled(m, s, data);
      && (Frees(b) ==> b.ptr in filled.heap)
      && AfterDelete(filled, b) == filled.(heap := m.heap)
  {
    Placement(m, s, false);
    hide Aligned, OnBoundary, Overwrite;
  }

  /** What the decoder does with an output parameter: build a buffer over the reply, let the call fill it, flush it,
      and destroy it. The reply ends up holding exactly what the call produced, nothing outside the reply and the
      buffer's own storage changes, and the heap is as before. */
  method FillReply(memory: MachineMemory, s: Site, reply: seq<byte>)
    requires Placeable(memory.Value(), s) && |reply| == s.size
    modifies memory, memory.cells
    ensures memory.heap == old(memory.heap)
    ensures ChangedTo(old(memory.cells[..]), memory.cells[..], s, reply)
  {
    ghost var before := memory.Value();
    ghost var b := Built(before, s, false);
    Placement(before, s, false);
    FilledCells(before, s, reply);
    HeapRestored(before, s, reply);
    var buffer := new GenericOutputBuffer(memory, s);
    hide Placed, AfterBuild, Placeable, AfterDelete, Overwrite, ChangedTo;
    var p := buffer.Get();
    StoreBytes(memory.cells, p, reply);
    buffer.Flush(memory);
    assert memory.Value() == Filled(before, s, reply);
    buffer.Destroy(memory);
    assert memory.Value() == AfterDelete(Filled(before, s, reply), b);
  }
}
