/** The bit reversal inside the version 1 checksum. */
module BitReversal {

  predicate Bit(x: bv32, i: bv6)
    requires i < 32
  {
    (x >> i) & 1 == 1
  }

  // ---- the reversal, bit by bit ----

  /** n rounds of "move the low bit of x to the low end of r". */
  function ShiftAcross(x: bv32, r: bv32, n: bv6): bv32
    decreases n, x, r
  {
    if n == 0 then r else ShiftAcross(x >> 1, (r << 1) | (x & 1), n - 1)
  }

  /** Bit-by-bit reversal of a word. */
  function Reversed(x: bv32): bv32 {
    ShiftAcross(x, 0, 32)
  }

  lemma {:induction false} ShiftAcrossBit(x: bv32, r: bv32, n: bv6, i: bv6)
    requires n <= 32 && i < 32
    ensures Bit(ShiftAcross(x, r, n), i) == if i < n then Bit(x, n - 1 - i) else Bit(r, i - n)
    decreases n
  {
    if n != 0 {
      ShiftAcrossBit(x >> 1, (r << 1) | (x & 1), n - 1, i);
    }
  }

  /** Output bit i of the reversal is input bit 31 - i. */
  lemma ReversedBit(x: bv32, i: bv6)
    requires i < 32
    ensures Bit(Reversed(x), i) == Bit(x, 31 - i)
  {
    ShiftAcrossBit(x, 0, 32, i);
  }

  // ---- words are determined by their bits ----

  lemma DifferingBit(a: bv32, b: bv32) returns (i: bv6)
    requires a != b
    ensures i < 32 && Bit(a, i) != Bit(b, i)
  {
    i := 0;
    var d := a ^ b;
    if d & 0xffff == 0 { i, d := i + 16, d >> 16; }
    if d & 0xff == 0 { i, d := i + 8, d >> 8; }
    if d & 0xf == 0 { i, d := i + 4, d >> 4; }
    if d & 0x3 == 0 { i, d := i + 2, d >> 2; }
    if d & 0x1 == 0 { i, d := i + 1, d >> 1; }
  }

  lemma SameBits(a: bv32, b: bv32)
    requires forall i: bv6 | i < 32 :: Bit(a, i) == Bit(b, i)
    ensures a == b
  {
    if a != b {
      var i := DifferingBit(a, b);
    }
  }

  lemma ReversedInvolution(x: bv32)
    ensures Reversed(Reversed(x)) == x
  {
    forall i: bv6 | i < 32
      ensures Bit(Reversed(Reversed(x)), i) == Bit(x, i)
    {
      ReversedBit(Reversed(x), i);
      ReversedBit(x, 31 - i);
    }
    SameBits(Reversed(Reversed(x)), x);
  }

  lemma ReversedInjective(x: bv32, y: bv32)
    requires Reversed(x) == Reversed(y)
    ensures x == y
  {
    ReversedInvolution(x);
    ReversedInvolution(y);
  }

  // ---- the reversal, in five mask-and-shift stages ----

  function Stage16(x: bv32): bv32 { ((x & 0xffff_0000) >> 16) | ((x & 0x0000_ffff) << 16) }
  function Stage8(x: bv32): bv32 { ((x & 0xff00_ff00) >> 8) | ((x & 0x00ff_00ff) << 8) }
  function Stage4(x: bv32): bv32 { ((x & 0xf0f0_f0f0) >> 4) | ((x & 0x0f0f_0f0f) << 4) }
  function Stage2(x: bv32): bv32 { ((x & 0xcccc_cccc) >> 2) | ((x & 0x3333_3333) << 2) }
  function Stage1(x: bv32): bv32 { ((x & 0xaaaa_aaaa) >> 1) | ((x & 0x5555_5555) << 1) }

  // Each stage moves bit i to position i xor its shift distance.

  lemma Stage16Bit(x: bv32, i: bv6)
    requires i < 32
    ensures Bit(Stage16(x), i) == Bit(x, i ^ 16)
  {}

  lemma Stage8Bit(x: bv32, i: bv6)
    requires i < 32
    ensures Bit(Stage8(x), i) == Bit(x, i ^ 8)
  {}

  lemma Stage4Bit(x: bv32, i: bv6)
    requires i < 32
    ensures Bit(Stage4(x), i) == Bit(x, i ^ 4)
  {}

  lemma Stage2Bit(x: bv32, i: bv6)
    requires i < 32
    ensures Bit(Stage2(x), i) == Bit(x, i ^ 2)
  {}

  lemma Stage1Bit(x: bv32, i: bv6)
    requires i < 32
    ensures Bit(Stage1(x), i) == Bit(x, i ^ 1)
  {}

  /** Together the stages move bit i to position i xor 31. */
  lemma StagesBit(x: bv32, i: bv6)
    requires i < 32
    ensures Bit(Stage1(Stage2(Stage4(Stage8(Stage16(x))))), i) == Bit(x, 31 - i)
  {
    var a := Stage16(x);
    var b := Stage8(a);
    var c := Stage4(b);
    var d := Stage2(c);
    Stage1Bit(d, i);
    Stage2Bit(c, i ^ 1);
    Stage4Bit(b, i ^ 1 ^ 2);
    Stage8Bit(a, i ^ 1 ^ 2 ^ 4);
    Stage16Bit(x, i ^ 1 ^ 2 ^ 4 ^ 8);
    assert i ^ 1 ^ 2 ^ 4 ^ 8 ^ 16 == 31 - i;
  }

  /** The five stages compose to the bit-by-bit reversal. */
  lemma StagesReverse(x: bv32)
    ensures Stage1(Stage2(Stage4(Stage8(Stage16(x))))) == Reversed(x)
  {
    var s := Stage1(Stage2(Stage4(Stage8(Stage16(x)))));
    forall i: bv6 | i < 32
      ensures Bit(s, i) == Bit(Reversed(x), i)
    {
      StagesBit(x, i);
      ReversedBit(x, i);
    }
    SameBits(s, Reversed(x));
  }
}
