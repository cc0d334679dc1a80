/** The decoder's store of vertex attribute data. */
module ContextData {
  import opened Words
  import opened Packing
  import opened VertexFetch

  const MAX_VERTEX_ATTRIBUTES := 64

  // The locations as glVertexAttribPointer() numbers them.
  const VERTEX_LOCATION: uint32 := 0
  const NORMAL_LOCATION: uint32 := 1
  const COLOR_LOCATION: uint32 := 2
  const POINTSIZE_LOCATION: uint32 := 3
  const TEXCOORD0_LOCATION: uint32 := 4
  const TEXCOORD7_LOCATION: uint32 := 11
  const MATRIXINDEX_LOCATION: uint32 := 12
  const WEIGHT_LOCATION: uint32 := 13
  const LAST_LOCATION: uint32 := 14

  /** The attribute table after one store; a location out of range is ignored. */
  function Stored(table: seq<seq<byte>>, loc: uint32, data: seq<byte>): seq<seq<byte>> {
    if loc < |table| then table[loc := data] else table
  }

  class GLDecoderContextData {
    const pointers: array<seq<byte>>

    ghost predicate Valid() {
      pointers.Length == MAX_VERTEX_ATTRIBUTES
    }

    constructor ()
      ensures Valid() && fresh(pointers)
      ensures pointers.Length == 64
      ensures pointers[..] == Empty()
    {
      pointers := new seq<byte>[MAX_VERTEX_ATTRIBUTES](_ => []);
    }

    /** Stores the len bytes at position `from` of a buffer as the data of attribute loc. */
    method StorePointerData(loc: uint32, data: array<byte>, from: nat, len: nat)
      requires Valid()
      requires loc < MAX_VERTEX_ATTRIBUTES ==> from + len <= data.Length
      modifies pointers
      ensures loc < MAX_VERTEX_ATTRIBUTES ==>
        pointers[..] == Stored(old(pointers[..]), loc, old(data[from..from + len]))
      ensures loc >= MAX_VERTEX_ATTRIBUTES ==> pointers[..] == old(pointers[..])
    {
      if loc < pointers.Length {
        pointers[loc] := data[from..from + len];
      }
    }

    /** The data of attribute loc, or None, the null pointer, out of range. */
    method PointerData(loc: uint32) returns (data: Option<seq<byte>>)
      requires Valid()
      ensures data == if loc < |pointers[..]| then Some(pointers[..][loc]) else None
    {
      if loc < pointers.Length {
        data := Some(pointers[loc]);
      } else {
        data := None;
      }
    }
  }

  // ---- histories of stores ----

  function Empty(): seq<seq<byte>> {
    seq(MAX_VERTEX_ATTRIBUTES, _ => [])
  }

  datatype Store = Store(loc: uint32, data: seq<byte>)

  function After(table: seq<seq<byte>>, stores: seq<Store>): (t: seq<seq<byte>>)
    ensures |t| == |table|
    decreases stores
  {
    if stores == [] then table else After(Stored(table, stores[0].loc, stores[0].data), stores[1..])
  }

  /** No store after the i-th is to location loc. */
  ghost predicate Latest(stores: seq<Store>, i: int, loc: uint32)
    requires i >= -1
  {
    forall j :: i < j < |stores| ==> stores[j].loc != loc
  }

  lemma {:induction false} UntouchedStays(table: seq<seq<byte>>, stores: seq<Store>, loc: uint32)
    requires loc < |table| && Latest(stores, -1, loc)
    ensures After(table, stores)[loc] == table[loc]
    decreases stores
  {
    if stores != [] {
      assert stores[0].loc != loc;
      UntouchedStays(Stored(table, stores[0].loc, stores[0].data), stores[1..], loc);
    }
  }

  /** Locations 0 to 63 are held and no others, so every named location is: the last of them is 14. */
  lemma LocationsHeld(loc: uint32, data: seq<byte>)
    ensures |Empty()| == 64
    ensures loc < 64 ==> After(Empty(), [Store(loc, data)])[loc] == data
    ensures loc >= 64 ==> After(Empty(), [Store(loc, data)]) == Empty()
    ensures LAST_LOCATION == 14 && LAST_LOCATION < |Empty()|
  {
    assert [Store(loc, data)][1..] == [];
    assert After(Stored(Empty(), loc, data), []) == Stored(Empty(), loc, data);
  }

  /** Each location holds exactly the bytes of the latest store to it, whatever went to the others. */
  lemma {:induction false} HoldsLatest(table: seq<seq<byte>>, stores: seq<Store>, i: nat)
    requires i < |stores| && stores[i].loc < |table| && Latest(stores, i, stores[i].loc)
    ensures After(table, stores)[stores[i].loc] == stores[i].data
    decreases stores
  {
    var table' := Stored(table, stores[0].loc, stores[0].data);
    if i == 0 {
      UntouchedStays(table', stores[1..], stores[0].loc);
    } else {
      assert stores[1..][i - 1] == stores[i];
      HoldsLatest(table', stores[1..], i - 1);
    }
  }

  function InRange(stores: seq<Store>): seq<Store> {
    if stores == [] then []
    else (if stores[0].loc < MAX_VERTEX_ATTRIBUTES then [stores[0]] else []) + InRange(stores[1..])
  }

  /** Stores to locations out of range might as well not have happened. */
  lemma {:induction false} OutOfRangeIgnored(table: seq<seq<byte>>, stores: seq<Store>)
    requires |table| == MAX_VERTEX_ATTRIBUTES
    ensures After(table, stores) == After(table, InRange(stores))
    decreases stores
  {
    if stores != [] {
      OutOfRangeIgnored(Stored(table, stores[0].loc, stores[0].data), stores[1..]);
      if stores[0].loc < MAX_VERTEX_ATTRIBUTES {
        assert InRange(stores)[1..] == InRange(stores[1..]);
      } else {
        assert InRange(stores) == InRange(stores[1..]);
      }
    }
  }

  /** End to end: pack an attribute's elements, send datalen bytes of the result, store them, and whatever else is
      stored before, or after to other locations, reading whole element k of that attribute at stride 0 gives
      the element the client's own array has at its own stride. */
  lemma AttributeSurvives(stores: seq<Store>, i: nat, src: seq<byte>, vsize: uint32, stride: uint32,
                          datalen: uint32, k: nat)
    requires vsize > 0 && (k + 1) * vsize <= datalen
    requires Readable(|src|, vsize, EffectiveStride(stride, vsize), datalen)
    requires i < |stores| && stores[i].loc < MAX_VERTEX_ATTRIBUTES && Latest(stores, i, stores[i].loc)
    requires stores[i].data <= Packed(src, vsize, EffectiveStride(stride, vsize), datalen)
    requires |stores[i].data| == datalen
    ensures var held := After(Empty(), stores)[stores[i].loc];
      && Covers(|held|, vsize, vsize, k + 1)
      && Covers(|src|, vsize, if stride == 0 then vsize else stride, k + 1)
      && Fetch(held, vsize, 0, k) == Fetch(src, vsize, stride, k)
  {
    HoldsLatest(Empty(), stores, i);
    PackingPreservesFetch(src, vsize, stride, datalen, k);
    assert stores[i].data == Packed(src, vsize, EffectiveStride(stride, vsize), datalen)[..datalen];
  }
}
