/** Aligned stand-ins for unaligned buffers, over a byte-addressed memory with a heap.

    A buffer works on the client's bytes in place when they are aligned, else on an array inside itself when
    they are few enough, else on a heap block. */
module Buffers {
  import opened Words
  import opened Memory
  import opened Alignment

  /** The memory's bytes by address, and the size of every allocated heap block by its start. */
  datatype Mem = Mem(cells: seq<byte>, heap: map<nat, nat>)

  /** What a constructor is given: the client's bytes, the template parameters, where the object's own array
      lies, and the block the allocator would return. */
  datatype Site = Site(orig: nat, size: nat, stackSize: nat, align: nat, inner: nat, chunk: nat)

  /** The compiler aligns the inner array, and the allocator its blocks; distinct objects do not overlap. */
  predicate Placeable(m: Mem, s: Site) {
    && AllowedAlignment(s.align) && s.stackSize > 0
    && s.orig + s.size <= |m.cells|
    && OnBoundary(s.inner, s.align) && s.inner + s.stackSize <= |m.cells|
    && Apart(s.orig, s.size, s.inner, s.stackSize)
    && (Allocates(s) ==>
        && OnBoundary(s.chunk, 8) && s.chunk + s.size <= |m.cells|
        && s.chunk !in m.heap
        && Apart(s.chunk, s.size, s.orig, s.size)
        && Apart(s.chunk, s.size, s.inner, s.stackSize))
  }

  predicate Apart(a: nat, n: nat, b: nat, m: nat) {
    n == 0 || m == 0 || a + n <= b || b + m <= a
  }

  /** The constructor calls the allocator. */
  predicate Allocates(s: Site)
    requires AllowedAlignment(s.align)
  {
    !Aligned(s.orig, s.align) && s.size > s.stackSize
  }

  /** The address a buffer works at. */
  function Placed(s: Site): nat
    requires AllowedAlignment(s.align)
  {
    if Aligned(s.orig, s.align) then s.orig else if s.size <= s.stackSize then s.inner else s.chunk
  }

  /** A constructed buffer; `seen` records the client's bytes at that moment. */
  datatype Buffer = Buffer(input: bool, ptr: nat, orig: nat, size: nat, inner: nat, seen: seq<byte>)

  function Built(m: Mem, s: Site, input: bool): Buffer
    requires AllowedAlignment(s.align) && s.orig + s.size <= |m.cells|
  {
    Buffer(input, Placed(s), s.orig, s.size, s.inner, m.cells[s.orig..s.orig + s.size])
  }

  function Zeros(n: nat): seq<byte> {
    seq(n, _ => 0)
  }

  /** Memory after a constructor: an input buffer copies, an output buffer's heap block is cleared. */
  function AfterBuild(m: Mem, s: Site, input: bool): Mem
    requires Placeable(m, s)
  {
    var heap := if Allocates(s) then m.heap[s.chunk := s.size] else m.heap;
    var cells :=
      if Aligned(s.orig, s.align) then m.cells
      else if input then Overwrite(m.cells, Placed(s), m.cells[s.orig..s.orig + s.size])
      else if Allocates(s) then Overwrite(m.cells, s.chunk, Zeros(s.size))
      else m.cells;
    Mem(cells, heap)
  }

  /** Memory after flush(). */
  function AfterFlush(m: Mem, b: Buffer): Mem
    requires b.ptr + b.size <= |m.cells| && b.orig + b.size <= |m.cells|
  {
    if b.ptr != b.orig then m.(cells := Overwrite(m.cells, b.orig, m.cells[b.ptr..b.ptr + b.size])) else m
  }

  /** The destructor frees the storage. */
  predicate Frees(b: Buffer) {
    b.ptr != b.orig && b.ptr != b.inner
  }

  /** Memory after the destructor. */
  function AfterDelete(m: Mem, b: Buffer): Mem {
    if Frees(b) then m.(heap := m.heap - {b.ptr}) else m
  }

  /** get() is aligned on all three storage choices, is the client's own address exactly when that is aligned,
      and the destructor, which only compares addresses, frees exactly what the constructor allocated. */
  lemma Placement(m: Mem, s: Site, input: bool)
    requires Placeable(m, s)
    ensures var b := Built(m, s, input);
      && OnBoundary(b.ptr, s.align)
      && (b.ptr == s.orig <==> OnBoundary(s.orig, s.align))
      && (Frees(b) <==> Allocates(s))
      && b.ptr + b.size <= |m.cells|
      && (b.ptr != b.orig ==> Apart(b.ptr, b.size, b.orig, b.size))
  {
    MaskIsDivisibility(s.orig, s.align);
    if Allocates(s) {
      BoundaryIsMultiple(s.chunk, s.align);
    }
    hide OnBoundary, Aligned;
  }

  /** The n bytes of memory at p. */
  predicate Holds(cells: seq<byte>, p: nat, data: seq<byte>) {
    p + |data| <= |cells| && cells[p..p + |data|] == data
  }

  /** Which storage is chosen, what it shows, and what construction does to the heap. An aligned buffer works in place
      and changes nothing; a misaligned one that fits its inner array works there and leaves the heap alone; a larger
      one takes a block of its size. An input buffer shows the client's bytes, an output buffer what its storage
      held before, or zeros if that is a block. */
  lemma StorageChosen(m: Mem, s: Site, input: bool)
    requires Placeable(m, s)
    ensures var b, m' := Built(m, s, input), AfterBuild(m, s, input);
      && (OnBoundary(s.orig, s.align) ==> b.ptr == s.orig && m' == m)
      && (!OnBoundary(s.orig, s.align) && s.size <= s.stackSize ==>
          && b.ptr == s.inner && m'.heap == m.heap
          && s.inner + s.size <= |m.cells|
          && Holds(m'.cells, s.inner,
                   if input then m.cells[s.orig..s.orig + s.size] else m.cells[s.inner..s.inner + s.size]))
      && (!OnBoundary(s.orig, s.align) && s.size > s.stackSize ==>
          && b.ptr == s.chunk && s.chunk !in m.heap && m'.heap == m.heap[s.chunk := s.size]
          && Holds(m'.cells, s.chunk,
                   if input then m.cells[s.orig..s.orig + s.size] else seq(s.size, _ => 0)))
  {
    MaskIsDivisibility(s.orig, s.align);
    hide OnBoundary, Aligned;
  }

  /** A buffer no larger than its inner array never touches the heap, and works at that array exactly when the
      client's bytes are misaligned. */
  lemma SmallBufferUsesInnerArray(m: Mem, s: Site, input: bool)
    requires Placeable(m, s) && s.size <= s.stackSize
    ensures AfterBuild(m, s, input).heap == m.heap
    ensures AfterDelete(AfterBuild(m, s, input), Built(m, s, input)).heap == m.heap
    ensures s.orig != s.inner ==> (Built(m, s, input).ptr == s.inner <==> !OnBoundary(s.orig, s.align))
  {
    StorageChosen(m, s, input);
    hide OnBoundary, Aligned;
  }

  // ---- one output buffer ----

  /** The client writes the given bytes at the given offsets. */
  function Scribbled(cells: seq<byte>, at: nat, writes: map<nat, byte>): (r: seq<byte>)
    ensures |r| == |cells|
    ensures forall a :: 0 <= a < |cells| ==>
      r[a] == if a >= at && a - at in writes then writes[a - at] else cells[a]
  {
    seq(|cells|, a requires 0 <= a < |cells| => if a >= at && a - at in writes then writes[a - at] else cells[a])
  }

  /** Construct an output buffer, let the client write through get(), flush. */
  function ThroughBuffer(m: Mem, s: Site, writes: map<nat, byte>): Mem
    requires Placeable(m, s)
    requires Placed(s) + s.size <= |m.cells|
  {
    var built := AfterBuild(m, s, false);
    AfterFlush(built.(cells := Scribbled(built.cells, Placed(s), writes)), Built(m, s, false))
  }

  /** What the buffer shows at offset i before the client has written anything. */
  function Initial(m: Mem, s: Site, i: nat): byte
    requires Placeable(m, s) && i < s.size
    requires Placed(s) + s.size <= |m.cells|
  {
    if Allocates(s) then 0 else m.cells[Placed(s) + i]
  }

  predicate Within(a: int, at: nat, n: nat) {
    at <= a < at + n
  }

  /** Construction leaves everything outside the buffer's storage alone, and there shows `Initial`. */
  lemma BuiltBytes(m: Mem, s: Site)
    requires Placeable(m, s)
    ensures Placed(s) + s.size <= |m.cells|
    ensures Placed(s) == s.orig || Apart(Placed(s), s.size, s.orig, s.size)
    ensures var cells := AfterBuild(m, s, false).cells;
      && |cells| == |m.cells|
      && (forall a :: 0 <= a < |cells| && !Within(a, Placed(s), s.size) ==> cells[a] == m.cells[a])
      && forall i: nat :: i < s.size ==> Initial(m, s, i) == cells[Placed(s) + i]
  {
    Placement(m, s, false);
  }

  /** The bytes of memory after copying size bytes from p back to orig, if those differ. */
  function CopiedBack(cells: seq<byte>, p: nat, orig: nat, size: nat): (r: seq<byte>)
    requires p + size <= |cells| && orig + size <= |cells|
    ensures |r| == |cells|
  {
    if p == orig then cells else Overwrite(cells, orig, cells[p..p + size])
  }

  /** Writing at p and copying back to orig. */
  lemma CopyingBack(cells: seq<byte>, p: nat, orig: nat, size: nat, writes: map<nat, byte>)
    requires p + size <= |cells| && orig + size <= |cells| && (p == orig || Apart(p, size, orig, size))
    requires forall i :: i in writes ==> i < size
    ensures var back := CopiedBack(Scribbled(cells, p, writes), p, orig, size);
      forall a :: 0 <= a < |cells| ==>
        (Within(a, orig, size) ==>
          back[a] == if a - orig in writes then writes[a - orig] else cells[p + (a - orig)])
        && (!Within(a, orig, size) && !Within(a, p, size) ==> back[a] == cells[a])
  {
    hide Scribbled, Overwrite;
    var written := Scribbled(cells, p, writes);
    forall a | Within(a, orig, size)
      ensures written[p..p + size][a - orig] == written[p + (a - orig)]
    {}
  }

  /** Writing every byte at p and copying back to orig. */
  lemma CopyingAllBack(cells: seq<byte>, p: nat, orig: nat, size: nat, data: seq<byte>)
    requires p + size <= |cells| && orig + size <= |cells| && (p == orig || Apart(p, size, orig, size))
    requires |data| == size
    ensures var back := CopiedBack(Overwrite(cells, p, data), p, orig, size);
      forall a :: 0 <= a < |cells| ==>
        (Within(a, orig, size) ==> back[a] == data[a - orig])
        && (!Within(a, orig, size) && !Within(a, p, size) ==> back[a] == cells[a])
  {
    assert Overwrite(cells, p, data)[p..p + size] == data;
    hide Overwrite;
  }

  /** The byte that ends up at address a of the destination. */
  function Delivered(m: Mem, s: Site, writes: map<nat, byte>, a: int): byte
    requires Placeable(m, s) && Placed(s) + s.size <= |m.cells|
    requires Within(a, s.orig, s.size)
  {
    if a - s.orig in writes then writes[a - s.orig] else Initial(m, s, a - s.orig)
  }

  lemma ThroughCells(m: Mem, s: Site, writes: map<nat, byte>)
    requires Placeable(m, s) && Placed(s) + s.size <= |m.cells|
    ensures |AfterBuild(m, s, false).cells| == |m.cells|
    ensures ThroughBuffer(m, s, writes).cells ==
            CopiedBack(Scribbled(AfterBuild(m, s, false).cells, Placed(s), writes), Placed(s), s.orig, s.size)
  {
    hide Scribbled, Overwrite;
  }

  lemma FlushedByte(m: Mem, s: Site, writes: map<nat, byte>, a: nat)
    requires Placeable(m, s) && Placed(s) + s.size <= |m.cells|
    requires forall i :: i in writes ==> i < s.size
    requires a < |m.cells| == |ThroughBuffer(m, s, writes).cells|
    ensures Within(a, s.orig, s.size) ==> ThroughBuffer(m, s, writes).cells[a] == Delivered(m, s, writes, a)
    ensures !Within(a, s.orig, s.size) && !Within(a, Placed(s), s.size) ==>
      ThroughBuffer(m, s, writes).cells[a] == m.cells[a]
  {
    hide AfterBuild, ThroughBuffer, Initial, Placed, Scribbled, CopiedBack, Placeable, Apart;
    SiteFacts(m, s);
    BuiltBytes(m, s);
    ThroughCells(m, s, writes);
    var cells, p := AfterBuild(m, s, false).cells, Placed(s);
    CopyingBack(cells, p, s.orig, s.size, writes);
    if Within(a, s.orig, s.size) {
      assert Initial(m, s, a - s.orig) == cells[p + (a - s.orig)];
    }
  }

  lemma SiteFacts(m: Mem, s: Site)
    requires Placeable(m, s)
    ensures AllowedAlignment(s.align) && s.orig + s.size <= |m.cells|
  {}

  /** Memory after a flush: the destination, byte by byte, and everything that is not the buffer's own storage. */
  lemma FlushedBytes(m: Mem, s: Site, writes: map<nat, byte>)
    requires Placeable(m, s)
    requires forall i :: i in writes ==> i < s.size
    ensures Placed(s) + s.size <= |m.cells|
    ensures var through := ThroughBuffer(m, s, writes).cells;
      && |through| == |m.cells|
      && forall a :: 0 <= a < |through| ==>
          (Within(a, s.orig, s.size) ==> through[a] == Delivered(m, s, writes, a))
          && (!Within(a, s.orig, s.size) && !Within(a, Placed(s), s.size) ==> through[a] == m.cells[a])
  {
    hide AfterBuild, ThroughBuffer, Initial, Placed, Scribbled, CopiedBack, Placeable, Delivered, Within, Apart;
    SiteFacts(m, s);
    BuiltBytes(m, s);
    ThroughCells(m, s, writes);
    forall a: nat | a < |m.cells|
      ensures Within(a, s.orig, s.size) ==> ThroughBuffer(m, s, writes).cells[a] == Delivered(m, s, writes, a)
      ensures !Within(a, s.orig, s.size) && !Within(a, Placed(s), s.size) ==>
        ThroughBuffer(m, s, writes).cells[a] == m.cells[a]
    {
      FlushedByte(m, s, writes, a);
    }
  }

  /** The destination holds after the flush what direct writes would have left there. */
  ghost predicate Transparent(m: Mem, s: Site, writes: map<nat, byte>)
    requires Placeable(m, s)
  {
    Placement(m, s, false);
    var direct, through := Scribbled(m.cells, s.orig, writes), ThroughBuffer(m, s, writes).cells;
    |through| == |direct| && forall a :: Within(a, s.orig, s.size) ==> through[a] == direct[a]
  }

  /** In one memory: the bytes the client did not write must already have shown the destination's value. */
  lemma TransparentByBytes(m: Mem, s: Site, writes: map<nat, byte>)
    requires Placeable(m, s)
    requires forall i :: i in writes ==> i < s.size
    ensures Placed(s) + s.size <= |m.cells|
    ensures Transparent(m, s, writes) <==>
            forall a :: Within(a, s.orig, s.size) && a - s.orig !in writes ==> Initial(m, s, a - s.orig) == m.cells[a]
  {
    FlushedBytes(m, s, writes);
    assert AllowedAlignment(s.align);
    hide Scribbled, ThroughBuffer, Initial, Placed, Placeable;
    var direct, through := Scribbled(m.cells, s.orig, writes), ThroughBuffer(m, s, writes).cells;
    forall a | Within(a, s.orig, s.size)
      ensures through[a] == direct[a] <==>
        (a - s.orig !in writes ==> Initial(m, s, a - s.orig) == m.cells[a])
    {}
  }

  /** The memory m with a byte at the destination and, unless it is a cleared block, a different one in the storage. */
  function Contrasted(m: Mem, s: Site, i: nat): Mem
    requires Placeable(m, s) && i < s.size && Placed(s) + s.size <= |m.cells|
  {
    var cells := m.cells[Placed(s) + i := 0];
    m.(cells := cells[s.orig + i := 1])
  }

  /** At a misaligned site a byte left unwritten can differ: the flush overwrites a 1 with the storage's 0. */
  lemma UnwrittenByteDiffers(m: Mem, s: Site, writes: map<nat, byte>, i: nat)
    requires Placeable(m, s) && !OnBoundary(s.orig, s.align) && i < s.size && i !in writes
    requires forall j :: j in writes ==> j < s.size
    ensures Placed(s) + s.size <= |m.cells|
    ensures var m' := Contrasted(m, s, i);
      && Placeable(m', s)
      && |ThroughBuffer(m', s, writes).cells| == |m.cells|
      && ThroughBuffer(m', s, writes).cells[s.orig + i] == 0
      && Scribbled(m'.cells, s.orig, writes)[s.orig + i] == 1
      && !Transparent(m', s, writes)
  {
    hide Scribbled, ThroughBuffer, Initial, Placed, Contrasted, Placeable, Apart, OnBoundary;
    ContrastShown(m, s, i);
    var m' := Contrasted(m, s, i);
    SiteFacts(m', s);
    FlushedBytes(m', s, writes);
    assert Within(s.orig + i, s.orig, s.size);
    assert s.orig + i - s.orig == i;
  }

  lemma ContrastShown(m: Mem, s: Site, i: nat)
    requires Placeable(m, s) && !OnBoundary(s.orig, s.align) && i < s.size
    ensures Placed(s) + s.size <= |m.cells|
    ensures var m' := Contrasted(m, s, i);
      Placeable(m', s) && |m'.cells| == |m.cells| && Initial(m', s, i) == 0 && m'.cells[s.orig + i] == 1
  {
    Placement(m, s, false);
    hide OnBoundary;
  }

  /** Transparency, exactly: at a site where a buffer can be placed at all, a client that writes a given set of
      offsets leaves at the destination what direct writes would leave, whatever memory holds, if and only if the
      client's bytes are aligned or it writes every one of them. */
  lemma OutputTransparency(m: Mem, s: Site, writes: map<nat, byte>)
    requires Placeable(m, s)
    requires forall i :: i in writes ==> i < s.size
    ensures (forall m': Mem :: Placeable(m', s) ==> Transparent(m', s, writes)) <==>
            OnBoundary(s.orig, s.align) || forall i: nat :: i < s.size ==> i in writes
  {
    if OnBoundary(s.orig, s.align) || forall i: nat :: i < s.size ==> i in writes {
      forall m': Mem | Placeable(m', s)
        ensures Transparent(m', s, writes)
      {
        SafeSiteTransparent(m', s, writes);
      }
    } else {
      var i: nat :| i < s.size && i !in writes;
      UnwrittenByteDiffers(m, s, writes, i);
      assert Placeable(Contrasted(m, s, i), s);
    }
  }

  lemma SafeSiteTransparent(m: Mem, s: Site, writes: map<nat, byte>)
    requires Placeable(m, s)
    requires forall i :: i in writes ==> i < s.size
    requires OnBoundary(s.orig, s.align) || forall i: nat :: i < s.size ==> i in writes
    ensures Transparent(m, s, writes)
  {
    TransparentByBytes(m, s, writes);
    Placement(m, s, false);
    hide Transparent, ThroughBuffer, Scribbled;
  }

  /** In particular a client that writes every byte leaves exactly its bytes, whichever storage was chosen. */
  lemma FullWriteTransparent(m: Mem, s: Site, writes: map<nat, byte>)
    requires Placeable(m, s)
    requires forall i :: i in writes ==> i < s.size
    requires forall i: nat :: i < s.size ==> i in writes
    ensures Placed(s) + s.size <= |m.cells|
    ensures |ThroughBuffer(m, s, writes).cells| == |m.cells|
    ensures forall a :: Within(a, s.orig, s.size) ==> ThroughBuffer(m, s, writes).cells[a] == writes[a - s.orig]
  {
    FlushedBytes(m, s, writes);
    hide ThroughBuffer, Initial, Placed;
  }

  /** For instance: one misaligned byte holding 1, and an inner array of zeros. */
  lemma LeftoverByteDelivered()
    ensures var s, m := Site(9, 1, 8, 8, 16, 0), Mem(Zeros(32)[9 := 1], map[]);
      && Placeable(m, s) && Placed(s) + s.size <= |m.cells|
      && |ThroughBuffer(m, s, map[]).cells| == 32
      && ThroughBuffer(m, s, map[]).cells[9] == 0
      && Scribbled(m.cells, 9, map[])[9] == 1
  {
    MaskIsDivisibility(9, 8);
    var s, m := Site(9, 1, 8, 8, 16, 0), Mem(Zeros(32)[9 := 1], map[]);
    assert Placeable(m, s) && Placed(s) == 16;
    FlushedBytes(m, s, map[]);
    assert Within(9, s.orig, s.size);
    hide ThroughBuffer, Scribbled;
  }
}
