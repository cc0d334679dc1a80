/** The alignment test of the buffer classes. */
module Alignment {

  /** Bitwise and. */
  function And(a: nat, b: nat): nat
    decreases a, b
  {
    if a == 0 || b == 0 then 0
    else 2 * And(a / 2, b / 2) + (if a % 2 == 1 && b % 2 == 1 then 1 else 0)
  }

  predicate AllowedAlignment(align: nat) {
    align == 1 || align == 2 || align == 4 || align == 8
  }

  /** The test on the low bits of an address. */
  predicate Aligned(address: nat, align: nat)
    requires AllowedAlignment(align)
  {
    And(address, align - 1) == 0
  }

  /** The address lies on an alignment boundary. */
  predicate OnBoundary(address: nat, align: nat)
    requires AllowedAlignment(align)
  {
    match align
    case 1 => true
    case 2 => address % 2 == 0
    case 4 => address % 4 == 0
    case 8 => address % 8 == 0
  }

  lemma BoundaryIsMultiple(address: nat, align: nat)
    requires AllowedAlignment(align)
    ensures OnBoundary(address, align) <==> address % align == 0
    ensures OnBoundary(address, 8) ==> OnBoundary(address, align)
  {}

  lemma AndZero(a: nat)
    ensures And(a, 0) == 0
  {}

  lemma AndLow(a: nat, b: nat)
    requires b % 2 == 1
    ensures And(a, b) == 2 * And(a / 2, b / 2) + a % 2
  {}

  /** It says whether the address lies on a boundary, that is, whether the alignment divides it. */
  lemma MaskIsDivisibility(address: nat, align: nat)
    requires AllowedAlignment(align)
    ensures Aligned(address, align) <==> OnBoundary(address, align)
  {
    var a1 := address / 2;
    var a2 := a1 / 2;
    AndZero(address);
    AndZero(a1);
    AndZero(a2);
    AndZero(a2 / 2);
    AndLow(address, 1);
    AndLow(address, 3);
    AndLow(address, 7);
    AndLow(a1, 1);
    AndLow(a1, 3);
    AndLow(a2, 1);
  }
}
