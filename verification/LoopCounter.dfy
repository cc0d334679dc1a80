/** The 32-bit counter of the packing loop: how often it goes round, and exactly when it stops. */
module LoopCounter {
  import opened Words

  // ---- the loop counter ----

  /** The 32-bit loop counter after n rounds of adding vsize. */
  function Counter(vsize: uint32, n: nat): uint32
    decreases n
  {
    if n == 0 then 0 else Wrap(Counter(vsize, n - 1) + vsize)
  }

  lemma {:induction false} CounterIsWrap(vsize: uint32, n: nat)
    ensures Counter(vsize, n) == Wrap(n * vsize)
    decreases n
  {
    if n != 0 {
      CounterIsWrap(vsize, n - 1);
      Distributive(n, 1, vsize);
      WrapAbsorbs((n - 1) * vsize, vsize);
    }
  }

  /** The loop condition fails after some number of rounds. */
  ghost predicate Halts(vsize: uint32, datalen: uint32) {
    exists n: nat :: Counter(vsize, n) >= datalen
  }

  ghost predicate FirstStop(vsize: uint32, datalen: uint32, n: nat) {
    Counter(vsize, n) >= datalen && forall m: nat :: m < n ==> Counter(vsize, m) < datalen
  }

  lemma {:induction false} FindFirstStop(vsize: uint32, datalen: uint32, n: nat) returns (first: nat)
    requires Counter(vsize, n) >= datalen
    ensures FirstStop(vsize, datalen, first)
    decreases n
  {
    if m: nat :| m < n && Counter(vsize, m) >= datalen {
      first := FindFirstStop(vsize, datalen, m);
    } else {
      first := n;
    }
  }

  /** How many rounds the loop makes. */
  ghost function Rounds(vsize: uint32, datalen: uint32): (n: nat)
    requires Halts(vsize, datalen)
    ensures FirstStop(vsize, datalen, n)
  {
    assert exists n: nat :: FirstStop(vsize, datalen, n) by {
      var n: nat :| Counter(vsize, n) >= datalen;
      var first := FindFirstStop(vsize, datalen, n);
    }
    var n: nat :| FirstStop(vsize, datalen, n);
    n
  }

  // ---- arithmetic ----

  lemma Associative(a: int, b: int, c: int)
    ensures (a * b) * c == a * (b * c)
  {}

  lemma Distributive(a: int, b: int, c: int)
    ensures (a + b) * c == a * c + b * c
    ensures (a - b) * c == a * c - b * c
  {}

  lemma Monotone(a: int, b: int, c: nat)
    requires a <= b
    ensures a * c <= b * c
  {}

  lemma DivMod(t: int, v: int)
    requires v > 0
    ensures t == (t / v) * v + t % v
    ensures 0 <= t % v < v
  {}

  /** At most one multiple of v lies in any stretch of length v. */
  lemma SameQuotient(a: int, b: int, v: nat, t: int)
    requires t <= a * v < t + v && t <= b * v < t + v
    ensures a == b
  {
    if a < b {
      Monotone(a + 1, b, v);
      Distributive(a, 1, v);
    } else if b < a {
      Monotone(b + 1, a, v);
      Distributive(b, 1, v);
    }
  }

  /** What a wrapped value is, from any way of taking it apart. */
  lemma WrapIs(n: int, q: int, r: int)
    requires n == q * TWO_TO_32 + r && 0 <= r < TWO_TO_32
    ensures Wrap(n) == r
  {}

  // ---- how many rounds ----

  /** datalen / vsize rounded up. */
  function Ceiling(vsize: nat, datalen: nat): nat
    requires vsize > 0
  {
    (datalen + (vsize - 1)) / vsize
  }

  lemma CeilingBounds(vsize: nat, datalen: nat)
    requires vsize > 0
    ensures datalen <= Ceiling(vsize, datalen) * vsize < datalen + vsize
  {
    DivMod(datalen + (vsize - 1), vsize);
  }

  lemma CeilingExact(vsize: nat, datalen: nat)
    requires vsize > 0
    ensures Ceiling(vsize, datalen) * vsize == datalen <==> datalen % vsize == 0
  {
    var n := Ceiling(vsize, datalen);
    CeilingBounds(vsize, datalen);
    DivMod(datalen, vsize);
    if datalen % vsize == 0 {
      SameQuotient(n, datalen / vsize, vsize, datalen);
    } else {
      NotMultiple(n, vsize, datalen);
    }
  }

  lemma NotMultiple(n: int, v: nat, t: int)
    requires v > 0 && t % v != 0
    ensures n * v != t
  {
    DivMod(t, v);
    if n <= t / v {
      Monotone(n, t / v, v);
    } else {
      Monotone(t / v + 1, n, v);
      Distributive(t / v, 1, v);
    }
  }

  lemma BelowCeiling(vsize: nat, datalen: nat, m: nat)
    requires vsize > 0 && m < Ceiling(vsize, datalen)
    ensures m * vsize < datalen
  {
    CeilingBounds(vsize, datalen);
    Monotone(m + 1, Ceiling(vsize, datalen), vsize);
    Distributive(m, 1, vsize);
  }

  lemma CounterBelow(vsize: uint32, n: nat)
    ensures Counter(vsize, n) <= n * vsize
    ensures n * vsize < TWO_TO_32 ==> Counter(vsize, n) == n * vsize
    ensures TWO_TO_32 <= n * vsize < 2 * TWO_TO_32 ==> Counter(vsize, n) == n * vsize - TWO_TO_32
  {
    var t: int := n * vsize;
    CounterIsWrap(vsize, n);
    assert 0 <= t by {
      Monotone(0, n, vsize);
    }
    if t < TWO_TO_32 {
      WrapIs(t, 0, t);
    } else if t < 2 * TWO_TO_32 {
      WrapIs(t, 1, t - TWO_TO_32);
    }
  }

  /** The loop makes at least as many rounds as datalen needs, and exactly that many if and only if its
      counter does not wrap. */
  lemma RoundsAreCeiling(vsize: uint32, datalen: uint32)
    requires vsize > 0 && Halts(vsize, datalen)
    ensures Rounds(vsize, datalen) >= Ceiling(vsize, datalen)
    ensures Rounds(vsize, datalen) == Ceiling(vsize, datalen) <==>
            Ceiling(vsize, datalen) * vsize < TWO_TO_32
  {
    var n, r := Ceiling(vsize, datalen), Rounds(vsize, datalen);
    CeilingBounds(vsize, datalen);
    CounterBelow(vsize, r);
    CounterBelow(vsize, n);
    hide Ceiling, Counter;
    assert FirstStop(vsize, datalen, r);
    if r < n {
      BelowCeiling(vsize, datalen, r);
    }
  }

  /** The loop gets to every element that starts within datalen. */
  lemma RoundsReach(vsize: uint32, datalen: uint32, k: nat)
    requires vsize > 0 && k * vsize < datalen && Halts(vsize, datalen)
    ensures k < Rounds(vsize, datalen)
  {
    var n := Ceiling(vsize, datalen);
    RoundsAreCeiling(vsize, datalen);
    CeilingBounds(vsize, datalen);
    hide Ceiling, Counter;
    if n <= k {
      Monotone(n, k, vsize);
    }
  }

  // ---- exactly when the loop halts ----

  /** The largest power of two that divides v. */
  function LowBit(v: nat): nat
    requires v > 0
  {
    if v % 2 == 1 then 1 else 2 * LowBit(v / 2)
  }

  function Pow2(m: nat): (p: nat)
    ensures p > 0
  {
    if m == 0 then 1 else 2 * Pow2(m - 1)
  }

  /** v is its lowest bit times an odd number. */
  lemma {:induction false} LowBitFactor(v: nat) returns (odd: nat, m: nat)
    requires v > 0
    ensures odd % 2 == 1 && v == odd * LowBit(v) && LowBit(v) == Pow2(m)
    decreases v
  {
    if v % 2 == 1 {
      odd, m := v, 0;
    } else {
      odd, m := LowBitFactor(v / 2);
      Associative(2, odd, Pow2(m));
      Associative(odd, 2, Pow2(m));
      m := m + 1;
    }
  }

  /** Modulo a power of two, multiples of an odd number reach every residue. */
  lemma {:induction false} OddReaches(odd: nat, target: int, m: nat) returns (k: nat, q: int)
    requires odd % 2 == 1
    ensures k * odd == target + q * Pow2(m)
    decreases m
  {
    if m == 0 {
      k, q := 0, -target;
    } else {
      var half := Pow2(m - 1);
      k, q := OddReaches(odd, target, m - 1);
      if q % 2 == 1 {
        Distributive(k, half, odd);
        Distributive(q, odd, half);
        k, q := k + half, q + odd;
      }
      Associative(q / 2, 2, half);
      q := q / 2;
    }
  }

  lemma {:induction false} Pow2Split(a: nat, b: nat)
    ensures Pow2(a + b) == Pow2(a) * Pow2(b)
    decreases a
  {
    if a != 0 {
      Pow2Split(a - 1, b);
      Associative(2, Pow2(a - 1), Pow2(b));
    }
  }

  lemma Pow2Of32()
    ensures Pow2(32) == TWO_TO_32
  {
    assert Pow2(8) == 256;
    Pow2Split(8, 8);
    Pow2Split(16, 16);
  }

  lemma LargePow2(e: nat)
    ensures e >= 32 ==> Pow2(e) >= TWO_TO_32
  {
    Pow2Of32();
    if e >= 32 {
      Pow2Split(e - 32, 32);
      Monotone(1, Pow2(e - 32), Pow2(32));
    }
  }

  /** The lowest bit of a 32-bit element size divides 2^32. */
  lemma LowBitDivides(v: nat) returns (odd: nat, m: nat, cofactor: nat)
    requires 0 < v < TWO_TO_32
    ensures odd % 2 == 1 && v == odd * LowBit(v)
    ensures cofactor == Pow2(m) && TWO_TO_32 == cofactor * LowBit(v)
  {
    var e: nat;
    odd, e := LowBitFactor(v);
    Pow2Of32();
    Monotone(1, odd, Pow2(e));
    LargePow2(e);
    m := 32 - e;
    cofactor := Pow2(m);
    Pow2Split(m, e);
  }

  lemma CounterReachesWith(vsize: uint32, g: nat, odd: nat, cofactor: nat, k: nat, q: int)
    requires 0 < g <= TWO_TO_32 && vsize == odd * g && TWO_TO_32 == cofactor * g
    requires k * odd == -1 + q * cofactor
    ensures Counter(vsize, k) == TWO_TO_32 - g
  {
    CounterIsWrap(vsize, k);
    Associative(k, odd, g);
    Distributive(q * cofactor, 1, g);
    Associative(q, cofactor, g);
    Distributive(q, 1, TWO_TO_32);
    WrapIs(k * vsize, q - 1, TWO_TO_32 - g);
  }

  /** The counter reaches the largest multiple of vsize's lowest bit below 2^32. */
  lemma CounterReaches(vsize: uint32) returns (k: nat)
    requires vsize > 0
    ensures Counter(vsize, k) == TWO_TO_32 - LowBit(vsize)
  {
    var odd, m, cofactor := LowBitDivides(vsize);
    var q: int;
    k, q := OddReaches(odd, -1, m);
    Monotone(1, cofactor, LowBit(vsize));
    CounterReachesWith(vsize, LowBit(vsize), odd, cofactor, k, q);
  }

  lemma MultipleBelow(c: int, g: nat, cofactor: nat, r: int)
    requires c == r * g && c < cofactor * g
    ensures c <= cofactor * g - g
  {
    if r >= cofactor {
      Monotone(cofactor, r, g);
    }
    Monotone(r, cofactor - 1, g);
    Distributive(cofactor, 1, g);
  }

  /** The counter never gets beyond that: it is always a multiple of vsize's lowest bit. */
  lemma CounterBounded(vsize: uint32, n: nat)
    requires vsize > 0
    ensures Counter(vsize, n) <= TWO_TO_32 - LowBit(vsize)
  {
    var odd, m, cofactor := LowBitDivides(vsize);
    var g, c, q := LowBit(vsize), Counter(vsize, n), (n * vsize) / TWO_TO_32;
    CounterIsWrap(vsize, n);
    DivMod(n * vsize, TWO_TO_32);
    Associative(n, odd, g);
    Associative(q, cofactor, g);
    Distributive(n * odd, q * cofactor, g);
    MultipleBelow(c, g, cofactor, n * odd - q * cofactor);
  }

  /** The strided loop halts exactly when datalen leaves room below 2^32 for the lowest bit of the element
      size; with an element size that truncates to 0 it halts only when there is nothing to copy. */
  lemma HaltsExactly(vsize: uint32, datalen: uint32)
    ensures Halts(vsize, datalen) <==>
            if vsize == 0 then datalen == 0 else datalen <= TWO_TO_32 - LowBit(vsize)
  {
    if vsize == 0 {
      forall n: nat
        ensures Counter(vsize, n) == 0
      {
        CounterIsWrap(vsize, n);
      }
      assert Counter(vsize, 0) == 0;
    } else {
      var k := CounterReaches(vsize);
      forall n: nat
        ensures Counter(vsize, n) <= TWO_TO_32 - LowBit(vsize)
      {
        CounterBounded(vsize, n);
      }
    }
  }

  // ---- exactly when the loop overshoots ----

  /** The loop halts, but only after its counter has wrapped. */
  ghost predicate Overshoots(vsize: uint32, datalen: uint32)
    requires vsize > 0
  {
    Halts(vsize, datalen) && Ceiling(vsize, datalen) * vsize >= TWO_TO_32
  }

  /** The largest multiple of vsize below 2^32. */
  function LastMultiple(vsize: nat): nat
    requires vsize > 0
  {
    Monotone(0, (TWO_TO_32 - 1) / vsize, vsize);
    ((TWO_TO_32 - 1) / vsize) * vsize
  }

  /** Rounding datalen up to whole elements leaves 32 bits exactly when datalen is above that multiple. */
  lemma RoundingUpWraps(vsize: uint32, datalen: uint32)
    requires vsize > 0
    ensures Ceiling(vsize, datalen) * vsize >= TWO_TO_32 <==> datalen > LastMultiple(vsize)
  {
    var n, q := Ceiling(vsize, datalen), (TWO_TO_32 - 1) / vsize;
    CeilingBounds(vsize, datalen);
    DivMod(TWO_TO_32 - 1, vsize);
    Distributive(q, 1, vsize);
    Distributive(n, 1, vsize);
    hide Ceiling;
    if n <= q {
      Monotone(n, q, vsize);
    } else {
      Monotone(q + 1, n, vsize);
      Monotone(q, n - 1, vsize);
    }
  }

  /** The element sizes that can overshoot: some datalen for which the loop halts makes its counter wrap first if and
      only if the largest multiple of the size below 2^32 falls short of 2^32 less the size's lowest bit. */
  lemma OvershootSizes(vsize: uint32)
    requires vsize > 0
    ensures (exists datalen: uint32 :: Overshoots(vsize, datalen)) <==>
            LastMultiple(vsize) < TWO_TO_32 - LowBit(vsize)
  {
    var odd, m, cofactor := LowBitDivides(vsize);
    var top: int := TWO_TO_32 - LowBit(vsize);
    Monotone(1, cofactor, LowBit(vsize));
    forall datalen: uint32
      ensures Overshoots(vsize, datalen) <==> LastMultiple(vsize) < datalen <= top
    {
      RoundingUpWraps(vsize, datalen);
      HaltsExactly(vsize, datalen);
      hide Halts, Ceiling, LastMultiple, LowBit;
    }
    hide Overshoots, LastMultiple, LowBit;
    if LastMultiple(vsize) < top {
      var datalen: uint32 := top;
      assert Overshoots(vsize, datalen);
    }
  }

  /** Elements of 24 bytes can overshoot, elements of 4 and of 12 cannot. */
  lemma OvershootExamples()
    ensures Overshoots(24, 0xFFFF_FFF8)
    ensures forall datalen: uint32 :: !Overshoots(4, datalen) && !Overshoots(12, datalen)
  {
    assert LowBit(24) == 8 && LowBit(4) == 4 && LowBit(12) == 4;
    HaltsExactly(24, 0xFFFF_FFF8);
    RoundingUpWraps(24, 0xFFFF_FFF8);
    OvershootSizes(4);
    OvershootSizes(12);
  }
}
