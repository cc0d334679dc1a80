/** Byte buffers: overwriting part of one, and the memcpy that does it. */
module Memory {
  import opened Words

  /** s with the bytes from position `at` on replaced by b. */
  function Overwrite(s: seq<byte>, at: nat, b: seq<byte>): (r: seq<byte>)
    requires at + |b| <= |s|
    ensures |r| == |s|
    ensures forall i :: 0 <= i < |s| ==> r[i] == if at <= i < at + |b| then b[i - at] else s[i]
  {
    s[..at] + b + s[at + |b|..]
  }

  lemma OverwriteAppend(s: seq<byte>, at: nat, b: seq<byte>, c: seq<byte>)
    requires at + |b| + |c| <= |s|
    ensures Overwrite(Overwrite(s, at, b), at + |b|, c) == Overwrite(s, at, b + c)
  {}

  /** Copies n bytes between two buffers that do not overlap. */
  method MemCopy(dst: array<byte>, at: nat, src: array<byte>, from: nat, n: nat)
    requires dst != src
    requires at + n <= dst.Length && from + n <= src.Length
    modifies dst
    ensures dst[..] == Overwrite(old(dst[..]), at, src[from..from + n])
  {
    for i := 0 to n
      invariant forall k :: 0 <= k < dst.Length ==>
        dst[k] == if at <= k < at + i then src[from + k - at] else old(dst[k])
    {
      dst[at + i] := src[from + i];
    }
  }

  /** Copies n bytes within one buffer, between stretches that do not overlap. */
  method MemCopyWithin(cells: array<byte>, at: nat, from: nat, n: nat)
    requires at + n <= cells.Length && from + n <= cells.Length
    requires n == 0 || at + n <= from || from + n <= at
    modifies cells
    ensures cells[..] == Overwrite(old(cells[..]), at, old(cells[from..from + n]))
  {
    for i := 0 to n
      invariant forall k :: 0 <= k < cells.Length ==>
        cells[k] == if at <= k < at + i then old(cells[from + k - at]) else old(cells[k])
    {
      cells[at + i] := cells[from + i];
    }
  }

  /** Copies the bytes of a local variable into a buffer. */
  method StoreBytes(dst: array<byte>, at: nat, b: seq<byte>)
    requires at + |b| <= dst.Length
    modifies dst
    ensures dst[..] == Overwrite(old(dst[..]), at, b)
  {
    for i := 0 to |b|
      invariant forall k :: 0 <= k < dst.Length ==>
        dst[k] == if at <= k < at + i then b[k - at] else old(dst[k])
    {
      dst[at + i] := b[i];
    }
  }
}
