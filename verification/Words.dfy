/** Fixed-width words and their byte images.

    Numbers the program computes with (counters, lengths, addresses) are mathematical integers
    kept in range by `Wrap`, and so are bytes; a word whose individual bits matter is a `bv32`. */
module Words {
  const TWO_TO_32: int := 0x1_0000_0000

  type uint32 = x: int | 0 <= x < 0x1_0000_0000

  type byte = x: int | 0 <= x < 256

  datatype Option<+T> = None | Some(value: T)

  /** Unsigned 32-bit arithmetic: the value a uint32_t holds after being assigned n. */
  function Wrap(n: int): uint32 {
    n % TWO_TO_32
  }

  lemma WrapCongruence(x: int, y: int, d: int)
    requires Wrap(x) == Wrap(y)
    ensures Wrap(x + d) == Wrap(y + d)
  {
    var q := x / TWO_TO_32 - y / TWO_TO_32;
    assert x == y + q * TWO_TO_32;
    assert x + d == (y + d) + q * TWO_TO_32;
  }

  lemma WrapAbsorbs(x: int, d: int)
    ensures Wrap(Wrap(x) + d) == Wrap(x + d)
  {
    WrapCongruence(Wrap(x), x, d);
  }

  /** Two offsets from one starting value meet exactly when they are congruent. */
  lemma WrapOffsets(start: int, i: int, j: int)
    ensures Wrap(start + i) == Wrap(start + j) <==> Wrap(i) == Wrap(j)
  {
    if Wrap(i) == Wrap(j) {
      WrapCongruence(i, j, start);
    }
    if Wrap(start + i) == Wrap(start + j) {
      WrapCongruence(start + i, start + j, -start);
    }
  }

  lemma WrapNearZero(d: int)
    requires -TWO_TO_32 < d < TWO_TO_32
    ensures Wrap(d) == 0 <==> d == 0
  {}

  lemma WrapSmall(d: nat)
    requires d < TWO_TO_32
    ensures Wrap(d) == d
  {}

  // ---- bytes of a number ----

  /** The k-th base-256 digit of x. */
  function Digit(x: uint32, k: nat): byte
    requires k < 4
  {
    match k
    case 0 => x % 256
    case 1 => x / 256 % 256
    case 2 => x / 256 / 256 % 256
    case 3 => x / 256 / 256 / 256
  }

  lemma DigitsSum(x: uint32)
    ensures x == Digit(x, 0) + 0x100 * Digit(x, 1) + 0x1_0000 * Digit(x, 2) + 0x100_0000 * Digit(x, 3)
  {
    var q1 := x / 256;
    var q2 := q1 / 256;
    var q3 := q2 / 256;
    assert x == 256 * q1 + Digit(x, 0);
    assert q1 == 256 * q2 + Digit(x, 1);
    assert q2 == 256 * q3 + Digit(x, 2);
  }

  function LittleEndian(x: uint32): seq<byte> {
    [Digit(x, 0), Digit(x, 1), Digit(x, 2), Digit(x, 3)]
  }

  function BigEndian(x: uint32): seq<byte> {
    [Digit(x, 3), Digit(x, 2), Digit(x, 1), Digit(x, 0)]
  }

  function FromBigEndian(b: seq<byte>): uint32
    requires |b| == 4
  {
    var d3: int, d2: int, d1: int, d0: int := b[0], b[1], b[2], b[3];
    0x100_0000 * d3 + 0x1_0000 * d2 + 0x100 * d1 + d0
  }

  lemma BigEndianRoundTrip(x: uint32)
    ensures FromBigEndian(BigEndian(x)) == x
  {
    DigitsSum(x);
  }

  /** The most significant byte comes first. */
  lemma BigEndianValue(x: uint32)
    ensures var b: seq<int> := BigEndian(x);
      |b| == 4 && x == 0x100_0000 * b[0] + 0x1_0000 * b[1] + 0x100 * b[2] + b[3]
  {
    DigitsSum(x);
  }

  lemma LittleEndianInjective(x: uint32, y: uint32)
    requires LittleEndian(x) == LittleEndian(y)
    ensures x == y
  {
    forall k: nat | k < 4
      ensures Digit(x, k) == Digit(y, k)
    {
      assert LittleEndian(x)[k] == LittleEndian(y)[k];
    }
    DigitsSum(x);
    DigitsSum(y);
  }

  // ---- words ----

  /** Every byte value is the value of some bit-vector, so converting there and back loses nothing. */
  lemma {:induction false} BitsWithValue(d: byte) returns (b: bv8)
    ensures b as int == d
    decreases d
  {
    if d == 0 {
      b := 0;
    } else {
      b := BitsWithValue(d - 1);
      b := b + 1;
    }
  }

  lemma BitsRoundTrip(d: byte)
    ensures (d as bv8) as int == d
  {
    var b := BitsWithValue(d);
    assert (b as int) as bv8 == b;
  }

  /** The bits of x as a machine word. */
  function Word(x: uint32): bv32 {
    (Digit(x, 3) as bv8 as bv32 << 24) | (Digit(x, 2) as bv8 as bv32 << 16) |
    (Digit(x, 1) as bv8 as bv32 << 8) | (Digit(x, 0) as bv8 as bv32)
  }

  /** What memcpy from a word writes, least significant byte first. */
  function WordBytes(w: bv32): seq<byte> {
    [BitsValue((w & 0xff) as bv8), BitsValue(((w >> 8) & 0xff) as bv8),
     BitsValue(((w >> 16) & 0xff) as bv8), BitsValue((w >> 24) as bv8)]
  }

  function BitsValue(b: bv8): byte {
    b as int
  }

  lemma BitsValueInjective(a: bv8, b: bv8)
    requires BitsValue(a) == BitsValue(b)
    ensures a == b
  {
    assert (a as int) as bv8 == a && (b as int) as bv8 == b;
  }

  lemma WordBytesInjective(v: bv32, w: bv32)
    requires WordBytes(v) == WordBytes(w)
    ensures v == w
  {
    var p, q := WordBytes(v), WordBytes(w);
    assert p[0] == q[0] && p[1] == q[1] && p[2] == q[2] && p[3] == q[3];
    BitsValueInjective((v & 0xff) as bv8, (w & 0xff) as bv8);
    BitsValueInjective(((v >> 8) & 0xff) as bv8, ((w >> 8) & 0xff) as bv8);
    BitsValueInjective(((v >> 16) & 0xff) as bv8, ((w >> 16) & 0xff) as bv8);
    BitsValueInjective((v >> 24) as bv8, (w >> 24) as bv8);
  }

  lemma ConcatenatedBits(a: bv8, b: bv8, c: bv8, d: bv8)
    ensures WordBytes((a as bv32 << 24) | (b as bv32 << 16) | (c as bv32 << 8) | (d as bv32)) ==
            [BitsValue(d), BitsValue(c), BitsValue(b), BitsValue(a)]
  {
    var w := (a as bv32 << 24) | (b as bv32 << 16) | (c as bv32 << 8) | (d as bv32);
    assert (w & 0xff) as bv8 == d;
    assert ((w >> 8) & 0xff) as bv8 == c;
    assert ((w >> 16) & 0xff) as bv8 == b;
    assert (w >> 24) as bv8 == a;
  }

  /** The machine word of x is laid out in memory as the base-256 digits of x. */
  lemma WordLayout(x: uint32)
    ensures WordBytes(Word(x)) == LittleEndian(x)
  {
    ConcatenatedBits(Digit(x, 3) as bv8, Digit(x, 2) as bv8, Digit(x, 1) as bv8, Digit(x, 0) as bv8);
    forall k: nat | k < 4
      ensures BitsValue(Digit(x, k) as bv8) == Digit(x, k)
    {
      BitsRoundTrip(Digit(x, k));
    }
  }

  lemma WordInjective(x: uint32, y: uint32)
    requires Word(x) == Word(y)
    ensures x == y
  {
    WordLayout(x);
    WordLayout(y);
    LittleEndianInjective(x, y);
  }
}
