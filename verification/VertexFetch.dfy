/** What packing means: vertex array addressing, section 2.8 of the OpenGL ES 2.0 specification. */
module VertexFetch {
  import opened Words
  import opened LoopCounter
  import opened Packing

  /** Element k of a vertex array: vsize bytes at k strides from its start, stride 0 meaning packed. */
  function Fetch(b: seq<byte>, vsize: uint32, stride: uint32, k: nat): seq<byte>
    requires Covers(|b|, vsize, if stride == 0 then vsize else stride, k + 1)
  {
    var step := if stride == 0 then vsize else stride;
    Monotone(0, k, step);
    b[k * step..k * step + vsize]
  }

  /** k + 1 whole elements in a packed buffer. */
  lemma PackedCovers(size: nat, vsize: nat, k: nat)
    requires (k + 1) * vsize <= size
    ensures Covers(size, vsize, vsize, k + 1)
    ensures 0 <= k * vsize && k * vsize + vsize <= size
  {
    Distributive(k, 1, vsize);
    Monotone(0, k, vsize);
  }

  lemma LoopFetch(src: seq<byte>, vsize: uint32, stride: uint32, datalen: uint32, k: nat)
    requires vsize > 0 && (k + 1) * vsize <= datalen && stride != 0 && stride != vsize
    requires Readable(|src|, vsize, stride, datalen)
    ensures Covers(|src|, vsize, stride, k + 1)
    ensures var packed := Packed(src, vsize, stride, datalen);
      Covers(|packed|, vsize, vsize, k + 1) && Fetch(packed, vsize, 0, k) == Fetch(src, vsize, stride, k)
  {
    Distributive(k, 1, vsize);
    RoundsReach(vsize, datalen, k);
    GatheredElement(src, vsize, stride, Rounds(vsize, datalen), k);
    hide Gathered;
  }

  lemma FetchFromPrefix(b: seq<byte>, size: nat, vsize: uint32, k: nat)
    requires (k + 1) * vsize <= size <= |b|
    ensures Covers(size, vsize, vsize, k + 1) && Covers(|b|, vsize, vsize, k + 1)
    ensures Fetch(b[..size], vsize, 0, k) == Fetch(b, vsize, 0, k)
  {
    PackedCovers(size, vsize, k);
    PackedCovers(|b|, vsize, k);
  }

  /** Reading any whole element of the packed array, or of its first datalen bytes, at stride 0 gives the element
      the source array has at its own stride, be that smaller than, equal to or larger than the element. */
  lemma PackingPreservesFetch(src: seq<byte>, vsize: uint32, stride: uint32, datalen: uint32, k: nat)
    requires vsize > 0 && (k + 1) * vsize <= datalen
    requires Readable(|src|, vsize, EffectiveStride(stride, vsize), datalen)
    ensures var packed := Packed(src, vsize, EffectiveStride(stride, vsize), datalen);
      && datalen <= |packed|
      && Covers(datalen, vsize, vsize, k + 1)
      && Covers(|src|, vsize, if stride == 0 then vsize else stride, k + 1)
      && Fetch(packed[..datalen], vsize, 0, k) == Fetch(src, vsize, stride, k)
      && Covers(|packed|, vsize, vsize, k + 1)
      && Fetch(packed, vsize, 0, k) == Fetch(src, vsize, stride, k)
  {
    var step := EffectiveStride(stride, vsize);
    PackedLength(src, vsize, step, datalen);
    FootprintCovers(vsize, step, datalen);
    FetchFromPrefix(Packed(src, vsize, step, datalen), datalen, vsize, k);
    if step == vsize {
      FetchFromPrefix(src, datalen, vsize, k);
      assert Fetch(src, vsize, stride, k) == Fetch(src, vsize, 0, k);
    } else {
      LoopFetch(src, vsize, step, datalen, k);
    }
    hide Fetch, Covers;
  }

  lemma FootprintCovers(vsize: uint32, stride: uint32, datalen: uint32)
    requires stride == vsize || Halts(vsize, datalen)
    ensures datalen <= Footprint(vsize, stride, datalen)
  {
    if stride != vsize {
      CounterBelow(vsize, Rounds(vsize, datalen));
    }
  }

  /** The loop writes at least datalen bytes, less than an element more exactly when its counter does not wrap,
      and exactly datalen bytes when besides that the data is a whole number of elements. */
  lemma LoopFootprint(vsize: uint32, stride: uint32, datalen: uint32)
    requires vsize > 0 && stride != vsize && Halts(vsize, datalen)
    ensures var n := Ceiling(vsize, datalen);
      && datalen <= Footprint(vsize, stride, datalen)
      && (Footprint(vsize, stride, datalen) < datalen + vsize <==> n * vsize < TWO_TO_32)
      && (Footprint(vsize, stride, datalen) == datalen <==> n * vsize < TWO_TO_32 && datalen % vsize == 0)
  {
    var n, r := Ceiling(vsize, datalen), Rounds(vsize, datalen);
    RoundsAreCeiling(vsize, datalen);
    CeilingBounds(vsize, datalen);
    CeilingExact(vsize, datalen);
    hide Ceiling;
    if n < r {
      Monotone(n + 1, r, vsize);
      Distributive(n, 1, vsize);
    }
  }

  /** With the one to four components a vertex attribute has, the loop halts without wrapping for every datalen
      up to 2^32 - 256. */
  lemma AttributesNeverWrap(size: int32, typeSize: TypeSize, datalen: uint32)
    requires 1 <= size <= 4 && datalen <= TWO_TO_32 - 256
    ensures var vsize := ElementSize(size, typeSize);
      vsize > 0 && Halts(vsize, datalen) && Ceiling(vsize, datalen) * vsize < TWO_TO_32
      && Rounds(vsize, datalen) == Ceiling(vsize, datalen)
  {
    var vsize := ElementSize(size, typeSize);
    ElementSizePositive(size, typeSize);
    CeilingBounds(vsize, datalen);
    CounterBelow(vsize, Ceiling(vsize, datalen));
    RoundsAreCeiling(vsize, datalen);
  }

  /** Where elements are contiguous, the block copy and the element loop produce the same bytes. */
  lemma {:induction false} LoopAgreesWithBlock(src: seq<byte>, vsize: nat, n: nat)
    requires Covers(|src|, vsize, vsize, n)
    ensures n * vsize <= |src|
    ensures Gathered(src, vsize, vsize, n) == src[..n * vsize]
    decreases n
  {
    if n > 0 {
      GatheredStep(src, vsize, vsize, n);
      LoopAgreesWithBlock(src, vsize, n - 1);
      Distributive(n, 1, vsize);
      hide Gathered, Covers;
    }
  }

  /** Packed data is a fixed point: packing it again at stride 0 gives it back, by block and by loop. */
  lemma RepackingIsIdentity(src: seq<byte>, vsize: uint32, stride: uint32, datalen: uint32)
    requires vsize > 0 && datalen % vsize == 0
    requires Readable(|src|, vsize, EffectiveStride(stride, vsize), datalen)
    ensures var packed := Packed(src, vsize, EffectiveStride(stride, vsize), datalen);
      && datalen <= |packed|
      && Packed(packed[..datalen], vsize, EffectiveStride(0, vsize), datalen) == packed[..datalen]
      && Covers(datalen, vsize, vsize, datalen / vsize)
      && Gathered(packed[..datalen], vsize, vsize, datalen / vsize) == packed[..datalen]
  {
    var step := EffectiveStride(stride, vsize);
    PackedLength(src, vsize, step, datalen);
    FootprintCovers(vsize, step, datalen);
    var n := datalen / vsize;
    DivMod(datalen, vsize);
    Distributive(n, 1, vsize);
    LoopAgreesWithBlock(Packed(src, vsize, step, datalen)[..datalen], vsize, n);
  }
}
