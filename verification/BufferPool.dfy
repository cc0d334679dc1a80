/** Any number of buffers alive at once. */
module BufferPool {
  import opened Words
  import opened Alignment
  import opened Buffers

  datatype World = World(mem: Mem, live: map<nat, Buffer>)

  datatype Step =
    | Construct(id: nat, site: Site, input: bool)
    | Write(address: nat, value: byte)   // by the client, through an output buffer or to its own memory
    | Flush(id: nat)
    | Destroy(id: nat)

  /** A buffer that works on storage of its own. */
  predicate Private(b: Buffer) {
    b.ptr != b.orig
  }

  /** A new buffer's storage belongs to nobody else, and it stands in for memory that is nobody's storage. */
  predicate Separate(s: Site, b: Buffer)
    requires AllowedAlignment(s.align)
  {
    && (Placed(s) != s.orig ==>
        && Apart(Placed(s), s.size, b.orig, b.size)
        && (Private(b) ==> Apart(Placed(s), s.size, b.ptr, b.size)))
    && (Private(b) ==> Apart(s.orig, s.size, b.ptr, b.size))
  }

  /** What a program may do next: build a buffer where the compiler and the allocator put it; write anywhere but
      into the storage of an input buffer, which get() gives out as constant; flush an output buffer; destroy a
      live buffer. */
  predicate Admissible(w: World, step: Step) {
    match step
    case Construct(id, s, _) =>
      id !in w.live && Placeable(w.mem, s) && forall other :: other in w.live ==> Separate(s, w.live[other])
    case Write(a, _) =>
      a < |w.mem.cells|
      && forall id :: id in w.live ==>
          !(w.live[id].input && Private(w.live[id]) && Within(a, w.live[id].ptr, w.live[id].size))
    case Flush(id) =>
      id in w.live && !w.live[id].input
      && w.live[id].ptr + w.live[id].size <= |w.mem.cells| && w.live[id].orig + w.live[id].size <= |w.mem.cells|
    case Destroy(id) => id in w.live
  }

  function Do(w: World, step: Step): World
    requires Admissible(w, step)
  {
    match step
    case Construct(id, s, input) => World(AfterBuild(w.mem, s, input), w.live[id := Built(w.mem, s, input)])
    case Write(a, value) => w.(mem := w.mem.(cells := w.mem.cells[a := value]))
    case Flush(id) => w.(mem := AfterFlush(w.mem, w.live[id]))
    case Destroy(id) => World(AfterDelete(w.mem, w.live[id]), w.live - {id})
  }

  predicate AllAdmissible(w: World, steps: seq<Step>)
    decreases steps
  {
    steps == [] || (Admissible(w, steps[0]) && AllAdmissible(Do(w, steps[0]), steps[1..]))
  }

  function Run(w: World, steps: seq<Step>): World
    requires AllAdmissible(w, steps)
    decreases steps
  {
    if steps == [] then w else Run(Do(w, steps[0]), steps[1..])
  }

  // ---- who owns which block ----

  /** Buffer id will free the block at p. */
  predicate Owns(w: World, id: nat, p: nat) {
    id in w.live && Frees(w.live[id]) && w.live[id].ptr == p
  }

  /** Beyond the blocks there were at the start, which are untouched, the allocated blocks are those of live
      buffers, each owned by exactly one. */
  ghost predicate Accounted(w: World, base: map<nat, nat>) {
    && (forall p :: p in base ==> p in w.mem.heap && w.mem.heap[p] == base[p])
    && (forall p :: p in w.mem.heap && p !in base ==> exists id :: Owns(w, id, p))
    && (forall id, p :: Owns(w, id, p) ==> p in w.mem.heap && w.mem.heap[p] == w.live[id].size && p !in base)
    && (forall id, id', p :: Owns(w, id, p) && Owns(w, id', p) ==> id == id')
  }

  lemma ConstructOwners(w: World, id: nat, s: Site, input: bool)
    requires Admissible(w, Construct(id, s, input))
    ensures var w' := Do(w, Construct(id, s, input));
      && (forall other, p ::
          Owns(w', other, p) <==> if other == id then Allocates(s) && p == s.chunk else Owns(w, other, p))
      && (Allocates(s) ==> s.chunk !in w.mem.heap)
      && w'.mem.heap == (if Allocates(s) then w.mem.heap[s.chunk := s.size] else w.mem.heap)
      && w'.live == w.live[id := Built(w.mem, s, input)] && w'.live[id].size == s.size
  {
    Placement(w.mem, s, input);
    assert Allocates(s) ==> Placed(s) == s.chunk;
    hide Placed, Separate, OnBoundary, Aligned;
  }

  lemma ConstructKeepsAccounts(w: World, base: map<nat, nat>, id: nat, s: Site, input: bool)
    requires Accounted(w, base) && Admissible(w, Construct(id, s, input))
    ensures Accounted(Do(w, Construct(id, s, input)), base)
  {
    var w' := Do(w, Construct(id, s, input));
    ConstructOwners(w, id, s, input);
    hide Placeable, Placed, Separate, Allocates, Do, Owns, Admissible;
    forall p | p in w'.mem.heap && p !in base
      ensures exists other :: Owns(w', other, p)
    {
      if Allocates(s) && p == s.chunk {
        assert Owns(w', id, p);
      } else {
        var other :| Owns(w, other, p);
        assert Owns(w', other, p);
      }
    }
  }

  lemma DestroyKeepsAccounts(w: World, base: map<nat, nat>, id: nat)
    requires Accounted(w, base) && id in w.live
    ensures Accounted(Do(w, Destroy(id)), base)
    ensures Frees(w.live[id]) ==> w.live[id].ptr in w.mem.heap && w.live[id].ptr !in base
  {
    var w' := Do(w, Destroy(id));
    var p := w.live[id].ptr;
    assert Frees(w.live[id]) ==> Owns(w, id, p);
    forall other, q
      ensures Owns(w', other, q) <==> other != id && Owns(w, other, q)
    {}
    forall q | q in w'.mem.heap && q !in base
      ensures exists other :: Owns(w', other, q)
    {
      var other :| Owns(w, other, q);
      assert Owns(w', other, q);
    }
  }

  lemma StepKeepsAccounts(w: World, base: map<nat, nat>, step: Step)
    requires Accounted(w, base) && Admissible(w, step)
    ensures Accounted(Do(w, step), base)
  {
    match step
    case Construct(id, s, input) => ConstructKeepsAccounts(w, base, id, s, input);
    case Write(_, _) =>
      SameOwners(w, Do(w, step), base);
    case Flush(_) =>
      SameOwners(w, Do(w, step), base);
    case Destroy(id) => DestroyKeepsAccounts(w, base, id);
  }

  lemma SameOwners(w: World, w': World, base: map<nat, nat>)
    requires Accounted(w, base) && w'.live == w.live && w'.mem.heap == w.mem.heap
    ensures Accounted(w', base)
  {
    forall id, p
      ensures Owns(w', id, p) <==> Owns(w, id, p)
    {}
    forall p | p in w'.mem.heap && p !in base
      ensures exists id :: Owns(w', id, p)
    {
      var id :| Owns(w, id, p);
      assert Owns(w', id, p);
    }
  }

  /** Every destructor that frees, frees a block that is allocated and that no one but its own buffer allocated. */
  ghost predicate FreesAreOwn(w: World, base: map<nat, nat>, steps: seq<Step>)
    requires AllAdmissible(w, steps)
    decreases steps
  {
    steps == [] ||
    ((steps[0].Destroy? && Frees(w.live[steps[0].id]) ==>
        && w.live[steps[0].id].ptr in w.mem.heap && w.live[steps[0].id].ptr !in base
        && forall other :: Owns(w, other, w.live[steps[0].id].ptr) ==> other == steps[0].id)
     && FreesAreOwn(Do(w, steps[0]), base, steps[1..]))
  }

  /** Over any run of any number of buffers, the heap is at every moment what it was at the start and one block
      for each live buffer that has one; nothing is freed twice or by the wrong buffer; and when no buffer is
      left the heap is what it was at the start. */
  lemma {:induction false} Ownership(w: World, base: map<nat, nat>, steps: seq<Step>)
    requires Accounted(w, base) && AllAdmissible(w, steps)
    ensures Accounted(Run(w, steps), base)
    ensures FreesAreOwn(w, base, steps)
    ensures Run(w, steps).live == map[] ==> Run(w, steps).mem.heap == base
    decreases steps
  {
    if steps != [] {
      StepKeepsAccounts(w, base, steps[0]);
      Ownership(Do(w, steps[0]), base, steps[1..]);
      if steps[0].Destroy? {
        DestroyKeepsAccounts(w, base, steps[0].id);
        assert Frees(w.live[steps[0].id]) ==> Owns(w, steps[0].id, w.live[steps[0].id].ptr);
      }
    } else if w.live == map[] {
      assert forall p :: p in w.mem.heap && p !in base ==> exists id :: Owns(w, id, p);
    }
  }

  // ---- runs that need no heap ----

  /** The buffer fits its inner array, or needs no stand-in. */
  predicate NeedsNoBlock(s: Site)
    requires AllowedAlignment(s.align)
  {
    s.size <= s.stackSize || OnBoundary(s.orig, s.align)
  }

  /** Exactly such constructions leave the heap alone, and their buffers are destroyed without a free. */
  lemma NeedsNoBlockExactly(m: Mem, s: Site, input: bool)
    requires Placeable(m, s)
    ensures NeedsNoBlock(s) <==> AfterBuild(m, s, input).heap == m.heap
    ensures NeedsNoBlock(s) <==> !Frees(Built(m, s, input))
  {
    StorageChosen(m, s, input);
    Placement(m, s, input);
    hide OnBoundary, Aligned, Placed;
  }

  /** A run that starts without a buffer that owns a block, and builds only buffers that need none, never changes
      the heap. */
  lemma {:induction false} SmallBuffersNeverAllocate(w: World, steps: seq<Step>)
    requires AllAdmissible(w, steps)
    requires forall id :: id in w.live ==> !Frees(w.live[id])
    requires forall step :: step in steps && step.Construct? ==>
      AllowedAlignment(step.site.align) && NeedsNoBlock(step.site)
    ensures Run(w, steps).mem.heap == w.mem.heap
    decreases steps
  {
    if steps != [] {
      assert steps[0] in steps;
      match steps[0] {
        case Construct(id, s, input) => NeedsNoBlockExactly(w.mem, s, input);
        case _ =>
      }
      hide NeedsNoBlock, Frees, Placeable;
      SmallBuffersNeverAllocate(Do(w, steps[0]), steps[1..]);
    }
  }

  // ---- what input buffers show ----

  /** Nothing else in the program uses a's own storage. */
  predicate Undisturbed(a: Buffer, b: Buffer) {
    Private(a) ==> Apart(a.ptr, a.size, b.orig, b.size) && (Private(b) ==> Apart(a.ptr, a.size, b.ptr, b.size))
  }

  predicate InBounds(b: Buffer, n: nat) {
    b.ptr + b.size <= n && b.orig + b.size <= n && |b.seen| == b.size
  }

  /** A copy still is what was copied. */
  predicate Faithful(b: Buffer, cells: seq<byte>) {
    b.input && Private(b) ==>
      forall a :: 0 <= a < |cells| && Within(a, b.ptr, b.size) && 0 <= a - b.ptr < |b.seen| ==>
        cells[a] == b.seen[a - b.ptr]
  }

  ghost predicate Intact(w: World) {
    && (forall id :: id in w.live ==> InBounds(w.live[id], |w.mem.cells|))
    && (forall id :: id in w.live ==> Faithful(w.live[id], w.mem.cells))
    && (forall id, other :: id in w.live && other in w.live && id != other ==>
        Undisturbed(w.live[id], w.live[other]))
  }

  /** Memory changes only inside the n bytes at `at`. */
  ghost predicate ChangedOnly(before: seq<byte>, after: seq<byte>, at: nat, n: nat) {
    |before| == |after| && forall a :: 0 <= a < |before| && !Within(a, at, n) ==> before[a] == after[a]
  }

  lemma FarChangesKeepFaithful(b: Buffer, before: seq<byte>, after: seq<byte>, at: nat, n: nat)
    requires Faithful(b, before) && ChangedOnly(before, after, at, n)
    requires b.input && Private(b) ==> Apart(b.ptr, b.size, at, n)
    ensures Faithful(b, after)
  {}

  lemma ConstructChanges(m: Mem, s: Site, input: bool)
    requires Placeable(m, s)
    ensures ChangedOnly(m.cells, AfterBuild(m, s, input).cells, Placed(s), if Placed(s) == s.orig then 0 else s.size)
    ensures InBounds(Built(m, s, input), |m.cells|)
    ensures Faithful(Built(m, s, input), AfterBuild(m, s, input).cells)
  {
    Placement(m, s, input);
    hide OnBoundary, Aligned;
  }

  lemma ConstructKeepsIntact(w: World, id: nat, s: Site, input: bool)
    requires Intact(w) && Admissible(w, Construct(id, s, input))
    ensures Intact(Do(w, Construct(id, s, input)))
  {
    var w' := Do(w, Construct(id, s, input));
    ConstructChanges(w.mem, s, input);
    Placement(w.mem, s, input);
    hide Placeable, Placed, AfterBuild, Faithful, ChangedOnly, OnBoundary;
    forall other | other in w.live
      ensures Undisturbed(w.live[other], w'.live[id]) && Undisturbed(w'.live[id], w.live[other])
      ensures Faithful(w.live[other], w'.mem.cells)
    {
      assert Separate(s, w.live[other]);
      FarChangesKeepFaithful(w.live[other], w.mem.cells, w'.mem.cells, Placed(s),
                             if Placed(s) == s.orig then 0 else s.size);
    }
  }

  lemma StepKeepsIntact(w: World, step: Step)
    requires Intact(w) && Admissible(w, step)
    ensures Intact(Do(w, step))
  {
    var w' := Do(w, step);
    match step
    case Construct(id, s, input) => ConstructKeepsIntact(w, id, s, input);
    case Write(a, _) =>
      forall id | id in w.live
        ensures Faithful(w.live[id], w'.mem.cells)
      {
        assert Faithful(w.live[id], w.mem.cells);
      }
    case Flush(f) =>
      var b := w.live[f];
      forall id | id in w.live
        ensures Faithful(w.live[id], w'.mem.cells)
      {
        if Private(b) && id != f {
          assert Undisturbed(w.live[id], b);
          FarChangesKeepFaithful(w.live[id], w.mem.cells, w'.mem.cells, b.orig, b.size);
        }
      }
    case Destroy(_) =>
  }

  /** The n bytes of memory at `at` are the given ones. */
  predicate Shows(cells: seq<byte>, at: nat, bytes: seq<byte>) {
    at + |bytes| <= |cells| && cells[at..at + |bytes|] == bytes
  }

  lemma FaithfulShows(b: Buffer, cells: seq<byte>)
    requires InBounds(b, |cells|) && Faithful(b, cells) && b.input && Private(b)
    ensures Shows(cells, b.ptr, b.seen)
  {
    forall i | 0 <= i < b.size
      ensures cells[b.ptr..b.ptr + b.size][i] == b.seen[i]
    {
      assert Within(b.ptr + i, b.ptr, b.size);
      assert cells[b.ptr + i] == b.seen[b.ptr + i - b.ptr];
    }
  }

  /** For its whole life an input buffer that made a copy shows the bytes the client's memory held when it was built,
      whatever else happens to that memory, to the heap and in other buffers. */
  lemma {:induction false} InputViews(w: World, steps: seq<Step>, id: nat)
    requires Intact(w) && AllAdmissible(w, steps)
    ensures Intact(Run(w, steps))
    ensures var w' := Run(w, steps);
      id in w'.live && w'.live[id].input && Private(w'.live[id]) ==>
        Shows(w'.mem.cells, w'.live[id].ptr, w'.live[id].seen)
    decreases steps
  {
    if steps != [] {
      StepKeepsIntact(w, steps[0]);
      InputViews(Do(w, steps[0]), steps[1..], id);
    } else if id in w.live && w.live[id].input && Private(w.live[id]) {
      FaithfulShows(w.live[id], w.mem.cells);
    }
  }

  // ---- buffers that made no copy ----

  /** A step of the program that leaves the n bytes at `at` alone: the client writes elsewhere, and flushes elsewhere. */
  predicate Spares(w: World, step: Step, at: nat, n: nat) {
    match step
    case Write(a, _) => !Within(a, at, n)
    case Flush(id) => id in w.live && Private(w.live[id]) ==> Apart(w.live[id].orig, w.live[id].size, at, n)
    case Construct(_, _, _) => true
    case Destroy(_) => true
  }

  predicate AllSpare(w: World, steps: seq<Step>, at: nat, n: nat)
    requires AllAdmissible(w, steps)
    decreases steps
  {
    steps == [] || (Spares(w, steps[0], at, n) && AllSpare(Do(w, steps[0]), steps[1..], at, n))
  }

  lemma FarChangesKeepShown(before: seq<byte>, after: seq<byte>, at: nat, n: nat, source: nat, bytes: seq<byte>)
    requires Shows(before, source, bytes) && ChangedOnly(before, after, at, n)
    requires Apart(at, n, source, |bytes|)
    ensures Shows(after, source, bytes)
  {
    forall i | 0 <= i < |bytes|
      ensures after[source..source + |bytes|][i] == bytes[i]
    {
      assert before[source..source + |bytes|][i] == bytes[i];
      assert !Within(source + i, at, n);
    }
  }

  lemma StepKeepsSource(w: World, step: Step, id: nat)
    requires Admissible(w, step) && id in w.live && InBounds(w.live[id], |w.mem.cells|)
    requires Spares(w, step, w.live[id].orig, w.live[id].size)
    requires Shows(w.mem.cells, w.live[id].orig, w.live[id].seen)
    ensures Shows(Do(w, step).mem.cells, w.live[id].orig, w.live[id].seen)
  {
    var b, before, after := w.live[id], w.mem.cells, Do(w, step).mem.cells;
    match step
    case Construct(_, s, input) =>
      assert Separate(s, b);
      ConstructChanges(w.mem, s, input);
      FarChangesKeepShown(before, after, Placed(s), if Placed(s) == s.orig then 0 else s.size, b.orig, b.seen);
    case Write(a, _) => FarChangesKeepShown(before, after, a, 1, b.orig, b.seen);
    case Flush(f) =>
      if Private(w.live[f]) {
        FarChangesKeepShown(before, after, w.live[f].orig, w.live[f].size, b.orig, b.seen);
      }
    case Destroy(_) =>
  }

  /** While neither the client nor a flush writes to the bytes it was built from, an input buffer shows them, whether
      it copied them or works on the client's memory itself, however many buffers are built beside it. */
  lemma {:induction false} UnmodifiedSourceViews(w: World, steps: seq<Step>, id: nat)
    requires Intact(w) && AllAdmissible(w, steps)
    requires id in w.live && w.live[id].input && Destroy(id) !in steps
    requires Shows(w.mem.cells, w.live[id].orig, w.live[id].seen)
    requires AllSpare(w, steps, w.live[id].orig, w.live[id].size)
    ensures var w' := Run(w, steps);
      && id in w'.live && w'.live[id] == w.live[id]
      && Shows(w'.mem.cells, w.live[id].ptr, w.live[id].seen)
    decreases steps
  {
    if steps != [] {
      assert steps[0] != Destroy(id);
      StepKeepsIntact(w, steps[0]);
      StepKeepsSource(w, steps[0], id);
      UnmodifiedSourceViews(Do(w, steps[0]), steps[1..], id);
    } else if Private(w.live[id]) {
      FaithfulShows(w.live[id], w.mem.cells);
    }
  }

  /** A buffer stays what it was built as until it is destroyed. */
  lemma {:induction false} LivesUntilDestroyed(w: World, steps: seq<Step>, id: nat)
    requires AllAdmissible(w, steps)
    requires id in w.live && Destroy(id) !in steps
    ensures id in Run(w, steps).live && Run(w, steps).live[id] == w.live[id]
    decreases steps
  {
    if steps != [] {
      assert steps[0] != Destroy(id);
      LivesUntilDestroyed(Do(w, steps[0]), steps[1..], id);
    }
  }
}
