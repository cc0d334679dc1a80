/** Packing strided vertex data. */
module Packing {
  import opened Words
  import opened Memory
  import opened LoopCounter

  /** The sizes glSizeof returns; it never returns 0. */
  type TypeSize = n: nat | n in {1, 2, 4, 8, 12, 16, 24, 32, 36, 48, 64} witness 1

  type int32 = x: int | -0x8000_0000 <= x < 0x8000_0000

  /** The byte size of one element, truncated to 32 bits. */
  function ElementSize(size: int32, typeSize: TypeSize): uint32 {
    Wrap((size as int) * (typeSize as int))
  }

  /** Stride 0 means tightly packed. */
  function EffectiveStride(stride: uint32, vsize: uint32): uint32 {
    if stride == 0 then vsize else stride
  }

  lemma ElementSizePositive(size: int32, typeSize: TypeSize)
    requires 1 <= size <= 4
    ensures ElementSize(size, typeSize) == size * typeSize
    ensures 0 < ElementSize(size, typeSize) <= 256
  {
    assert 0 < size * typeSize <= 256;
  }

  // ---- what packing produces ----

  /** The last byte of element n - 1 lies inside a buffer of the given size. */
  predicate Covers(size: nat, vsize: nat, stride: nat, n: nat) {
    n == 0 || (n - 1) * stride + vsize <= size
  }

  lemma CoversFewer(size: nat, vsize: nat, stride: nat, n: nat, k: nat)
    requires Covers(size, vsize, stride, n) && k <= n
    ensures Covers(size, vsize, stride, k)
  {
    if k > 0 {
      Monotone(k - 1, n - 1, stride);
    }
  }

  /** n elements of vsize bytes, the k-th taken from position k * stride. */
  function Gathered(src: seq<byte>, vsize: nat, stride: nat, n: nat): seq<byte>
    requires Covers(|src|, vsize, stride, n)
  {
    if n == 0 then [] else
    CoversFewer(|src|, vsize, stride, n, n - 1);
    Gathered(src, vsize, stride, n - 1) + src[(n - 1) * stride..(n - 1) * stride + vsize]
  }

  lemma GatheredStep(src: seq<byte>, vsize: nat, stride: nat, n: nat)
    requires n > 0 && Covers(|src|, vsize, stride, n)
    ensures Covers(|src|, vsize, stride, n - 1)
    ensures 0 <= (n - 1) * stride <= (n - 1) * stride + vsize <= |src|
    ensures Gathered(src, vsize, stride, n) ==
            Gathered(src, vsize, stride, n - 1) + src[(n - 1) * stride..(n - 1) * stride + vsize]
  {
    CoversFewer(|src|, vsize, stride, n, n - 1);
  }

  lemma {:induction false} GatheredLength(src: seq<byte>, vsize: nat, stride: nat, n: nat)
    requires Covers(|src|, vsize, stride, n)
    ensures |Gathered(src, vsize, stride, n)| == n * vsize
    decreases n
  {
    if n > 0 {
      GatheredStep(src, vsize, stride, n);
      GatheredLength(src, vsize, stride, n - 1);
      Distributive(n, 1, vsize);
      hide Gathered, Covers;
    }
  }

  /** Element k of the gathered bytes is element k of the source. */
  lemma {:induction false} GatheredElement(src: seq<byte>, vsize: nat, stride: nat, n: nat, k: nat)
    requires Covers(|src|, vsize, stride, n) && k < n
    ensures Covers(|src|, vsize, stride, k + 1)
    ensures 0 <= k * vsize <= k * vsize + vsize <= |Gathered(src, vsize, stride, n)|
    ensures Gathered(src, vsize, stride, n)[k * vsize..k * vsize + vsize] == src[k * stride..k * stride + vsize]
    decreases n
  {
    CoversFewer(|src|, vsize, stride, n, k + 1);
    GatheredStep(src, vsize, stride, n);
    GatheredLength(src, vsize, stride, n - 1);
    Monotone(0, k, vsize);
    hide Gathered;
    if k < n - 1 {
      GatheredElement(src, vsize, stride, n - 1, k);
    }
  }

  /** The loop, where there is one, halts, and the source has every byte that is read. */
  ghost predicate Readable(srcSize: nat, vsize: uint32, stride: uint32, datalen: uint32) {
    if stride == vsize then datalen <= srcSize
    else Halts(vsize, datalen) && Covers(srcSize, vsize, stride, Rounds(vsize, datalen))
  }

  /** The bytes packing writes: one block when elements are contiguous, otherwise one element a round. */
  ghost function Packed(src: seq<byte>, vsize: uint32, stride: uint32, datalen: uint32): seq<byte>
    requires Readable(|src|, vsize, stride, datalen)
  {
    if stride == vsize then src[..datalen] else Gathered(src, vsize, stride, Rounds(vsize, datalen))
  }

  /** How many they are. */
  ghost function Footprint(vsize: uint32, stride: uint32, datalen: uint32): nat
    requires stride == vsize || Halts(vsize, datalen)
  {
    if stride == vsize then datalen else Position(vsize, Rounds(vsize, datalen))
  }

  lemma PackedLength(src: seq<byte>, vsize: uint32, stride: uint32, datalen: uint32)
    requires Readable(|src|, vsize, stride, datalen)
    ensures |Packed(src, vsize, stride, datalen)| == Footprint(vsize, stride, datalen)
  {
    if stride != vsize {
      GatheredLength(src, vsize, stride, Rounds(vsize, datalen));
    }
  }

  // ---- where each element goes ----

  /** Element k of the source, k strides from its start, is found k element sizes from dst. */
  predicate ElementMoved(out: seq<byte>, dst: nat, source: seq<byte>, vsize: nat, stride: nat, k: nat) {
    && 0 <= k * vsize && dst + k * vsize + vsize <= |out|
    && 0 <= k * stride && k * stride + vsize <= |source|
    && out[dst + k * vsize..dst + k * vsize + vsize] == source[k * stride..k * stride + vsize]
  }

  /** Contiguous elements, as stride 0 also says they are, leave the source's first datalen bytes at dst; otherwise
      every element that starts within the first datalen packed bytes is there whole. */
  ghost predicate Moved(out: seq<byte>, dst: nat, source: seq<byte>, vsize: nat, stride: nat, datalen: nat) {
    if stride == 0 || stride == vsize then
      dst + datalen <= |out| && datalen <= |source| && out[dst..dst + datalen] == source[..datalen]
    else
      forall k: nat :: k * vsize < datalen ==> ElementMoved(out, dst, source, vsize, stride, k)
  }

  /** Stride 0 and a stride of just the element size give the first datalen bytes as they are. */
  lemma ContiguousIsBlock(src: seq<byte>, vsize: uint32, datalen: uint32)
    requires datalen <= |src|
    ensures EffectiveStride(0, vsize) == vsize && EffectiveStride(vsize, vsize) == vsize
    ensures Packed(src, vsize, EffectiveStride(0, vsize), datalen) == src[..datalen]
    ensures Packed(src, vsize, EffectiveStride(vsize, vsize), datalen) == src[..datalen]
  {}

  lemma GatheredIsMoved(src: seq<byte>, vsize: uint32, stride: uint32, datalen: uint32, k: nat)
    requires stride != vsize && Readable(|src|, vsize, stride, datalen)
    requires k * vsize < datalen
    ensures ElementMoved(Gathered(src, vsize, stride, Rounds(vsize, datalen)), 0, src, vsize, stride, k)
  {
    HaltsExactly(vsize, datalen);
    RoundsReach(vsize, datalen, k);
    GatheredElement(src, vsize, stride, Rounds(vsize, datalen), k);
    Monotone(0, k, stride);
    hide Gathered;
  }

  lemma PlacedElement(before: seq<byte>, dst: nat, packed: seq<byte>, src: seq<byte>, vsize: nat, stride: nat, k: nat)
    requires dst + |packed| <= |before| && ElementMoved(packed, 0, src, vsize, stride, k)
    ensures ElementMoved(Overwrite(before, dst, packed), dst, src, vsize, stride, k)
  {
    var at: nat := k * vsize;
    var out := Overwrite(before, dst, packed);
    assert out[dst..dst + |packed|] == packed;
    assert out[dst + at..dst + at + vsize] == packed[at..at + vsize];
  }

  /** Packed bytes, put in place, are the source's elements in place. */
  lemma PackingMoves(before: seq<byte>, dst: nat, src: seq<byte>, vsize: uint32, stride: uint32, datalen: uint32)
    requires Readable(|src|, vsize, EffectiveStride(stride, vsize), datalen)
    requires dst + |Packed(src, vsize, EffectiveStride(stride, vsize), datalen)| <= |before|
    ensures Moved(Overwrite(before, dst, Packed(src, vsize, EffectiveStride(stride, vsize), datalen)), dst, src,
                  vsize, stride, datalen)
  {
    var packed := Packed(src, vsize, EffectiveStride(stride, vsize), datalen);
    var out := Overwrite(before, dst, packed);
    if stride == 0 || stride == vsize {
      ContiguousIsBlock(src, vsize, datalen);
      assert out[dst..dst + datalen] == packed;
    } else {
      hide ElementMoved, Gathered, Overwrite;
      forall k: nat | k * vsize < datalen
        ensures ElementMoved(out, dst, src, vsize, stride, k)
      {
        GatheredIsMoved(src, vsize, stride, datalen, k);
        PlacedElement(before, dst, packed, src, vsize, stride, k);
      }
    }
  }

  /** Packs the elements at src into dst; dst and src are positions in two separate buffers. */
  method PackPointerData(dstBuffer: array<byte>, dst: nat, srcBuffer: array<byte>, src: nat,
                         size: int32, typeSize: TypeSize, stride: uint32, datalen: uint32)
    requires dstBuffer != srcBuffer
    requires dst <= dstBuffer.Length && src <= srcBuffer.Length
    requires var vsize := ElementSize(size, typeSize);
      var step := EffectiveStride(stride, vsize);
      Readable(srcBuffer.Length - src, vsize, step, datalen)
      && Footprint(vsize, step, datalen) <= dstBuffer.Length - dst
    modifies dstBuffer
    ensures var vsize := ElementSize(size, typeSize);
      var packed := Packed(srcBuffer[..][src..], vsize, EffectiveStride(stride, vsize), datalen);
      dst + |packed| <= dstBuffer.Length
      && dstBuffer[..] == Overwrite(old(dstBuffer[..]), dst, packed)
    ensures Moved(dstBuffer[..], dst, srcBuffer[..][src..],
                  ((size as int) * (typeSize as int)) % 0x1_0000_0000, stride, datalen)
  {
    hide Gathered, Covers, Counter, Overwrite, Position, Halts, Moved;
    var vsize := Wrap((size as int) * (typeSize as int));
    var step := stride;
    if step == 0 {
      step := vsize;
    }
    ghost var source, before := srcBuffer[..][src..], dstBuffer[..];
    PackedLength(source, vsize, step, datalen);
    PackingMoves(before, dst, source, vsize, stride, datalen);
    if step == vsize {
      MemCopy(dstBuffer, dst, srcBuffer, src, datalen);
      SliceOfTail(srcBuffer[..], src, 0, datalen);
    } else {
      ghost var rounds, k: nat := Rounds(vsize, datalen), 0;
      ghost var packed := [];
      var d: nat, s: nat := dst, src;
      var i: uint32 := 0;
      NoRounds(source, vsize, step);
      OverwriteNothing(before, dst);
      while i < datalen
        invariant k <= rounds && i == Counter(vsize, k) && Covers(|source|, vsize, step, k)
        invariant packed == Gathered(source, vsize, step, k)
        invariant d == dst + |packed| && |packed| <= Position(vsize, rounds) && s == src + Position(step, k)
        invariant dstBuffer[..] == Overwrite(before, dst, packed)
        decreases rounds - k
      {
        Round(source, vsize, step, rounds, k);
        ghost var element := source[Position(step, k)..Position(step, k) + vsize];
        SliceOfTail(srcBuffer[..], src, Position(step, k), vsize);
        assert |packed + element| <= Position(vsize, rounds);
        MemCopy(dstBuffer, d, srcBuffer, s, vsize);
        OverwriteAppend(before, dst, packed, element);
        d := d + vsize;
        s := s + step;
        i := Wrap(i + vsize);
        k, packed := k + 1, packed + element;
      }
    }
  }

  lemma SliceOfTail(b: seq<byte>, src: nat, x: nat, n: nat)
    requires src + x + n <= |b|
    ensures b[src..][x..x + n] == b[src + x..src + x + n]
  {}

  /** Where element k starts. */
  function Position(stride: nat, k: nat): nat {
    Monotone(0, k, stride);
    k * stride
  }

  lemma NoRounds(source: seq<byte>, vsize: uint32, stride: uint32)
    ensures Covers(|source|, vsize, stride, 0) && Gathered(source, vsize, stride, 0) == []
    ensures Position(stride, 0) == 0 && Counter(vsize, 0) == 0
  {}

  lemma OverwriteNothing(s: seq<byte>, at: nat)
    requires at <= |s|
    ensures Overwrite(s, at, []) == s
  {}

  /** One round of the loop. */
  lemma Round(source: seq<byte>, vsize: uint32, stride: uint32, rounds: nat, k: nat)
    requires k < rounds && Covers(|source|, vsize, stride, rounds)
    ensures Covers(|source|, vsize, stride, k) && Covers(|source|, vsize, stride, k + 1)
    ensures Position(stride, k) + vsize <= |source|
    ensures Position(stride, k + 1) == Position(stride, k) + stride
    ensures Gathered(source, vsize, stride, k + 1) ==
            Gathered(source, vsize, stride, k) + source[Position(stride, k)..Position(stride, k) + vsize]
    ensures |Gathered(source, vsize, stride, k + 1)| <= Position(vsize, rounds)
    ensures Wrap(Counter(vsize, k) + vsize) == Counter(vsize, k + 1)
  {
    CoversFewer(|source|, vsize, stride, rounds, k);
    CoversFewer(|source|, vsize, stride, rounds, k + 1);
    GatheredLength(source, vsize, stride, k + 1);
    Monotone(k + 1, rounds, vsize);
    Monotone(0, k, stride);
    Distributive(k, 1, vsize);
    Distributive(k, 1, stride);
  }

  // ---- what packing reads ----

  /** Two sources agree on element k. */
  predicate SameElement(b: seq<byte>, c: seq<byte>, vsize: nat, stride: nat, k: nat) {
    && Covers(|b|, vsize, stride, k + 1) && Covers(|c|, vsize, stride, k + 1)
    && b[Position(stride, k)..Position(stride, k) + vsize] == c[Position(stride, k)..Position(stride, k) + vsize]
  }

  lemma {:induction false} GatheredReads(b: seq<byte>, c: seq<byte>, vsize: nat, stride: nat, n: nat)
    requires Covers(|b|, vsize, stride, n) && Covers(|c|, vsize, stride, n)
    ensures Gathered(b, vsize, stride, n) == Gathered(c, vsize, stride, n) <==>
            forall k: nat :: k < n ==> SameElement(b, c, vsize, stride, k)
    decreases n
  {
    if n > 0 {
      GatheredStep(b, vsize, stride, n);
      GatheredStep(c, vsize, stride, n);
      GatheredReads(b, c, vsize, stride, n - 1);
      GatheredLength(b, vsize, stride, n - 1);
      GatheredLength(c, vsize, stride, n - 1);
      var x, y := Gathered(b, vsize, stride, n - 1), Gathered(c, vsize, stride, n - 1);
      var at: nat := Position(stride, n - 1);
      SplitEquality(x, y, b[at..at + vsize], c[at..at + vsize]);
      assert b[at..at + vsize] == c[at..at + vsize] <==> SameElement(b, c, vsize, stride, n - 1);
      hide Gathered, Covers, Position, SameElement;
    }
  }

  lemma SplitEquality(x: seq<byte>, y: seq<byte>, u: seq<byte>, v: seq<byte>)
    requires |x| == |y|
    ensures x + u == y + v <==> x == y && u == v
  {
    if x + u == y + v {
      assert x == (x + u)[..|x|] && u == (x + u)[|x|..];
    }
  }

  /** Packing depends on every byte of every element it takes and on no other: two sources pack to the same bytes if
      and only if they agree on the elements, or on the block. */
  lemma PackedReads(b: seq<byte>, c: seq<byte>, vsize: uint32, stride: uint32, datalen: uint32)
    requires Readable(|b|, vsize, stride, datalen) && Readable(|c|, vsize, stride, datalen)
    ensures Packed(b, vsize, stride, datalen) == Packed(c, vsize, stride, datalen) <==>
            if stride == vsize then b[..datalen] == c[..datalen]
            else forall k: nat :: k < Rounds(vsize, datalen) ==> SameElement(b, c, vsize, stride, k)
  {
    if stride != vsize {
      GatheredReads(b, c, vsize, stride, Rounds(vsize, datalen));
    }
  }
}
