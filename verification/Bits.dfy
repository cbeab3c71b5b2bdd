/** Sets of bits in a machine word. */
module Bits {
  function Or(a: bv64, b: bv64): bv64 {
    a | b
  }

  /** None of the bits of the mask is set. */
  predicate Clear(bits: bv64, mask: bv64) {
    bits & mask == 0
  }

  lemma AndDistributes(a: bv64, b: bv64, mask: bv64)
    ensures (a | b) & mask == (a & mask) | (b & mask)
  {
  }

  lemma OrIsZero(a: bv64, b: bv64)
    ensures a | b == 0 <==> a == 0 && b == 0
  {
  }

  lemma EitherSet(a: bv64, b: bv64, mask: bv64)
    ensures Clear(a | b, mask) <==> Clear(a, mask) && Clear(b, mask)
  {
    AndDistributes(a, b, mask);
    OrIsZero(a & mask, b & mask);
  }

  lemma OrClear(a: bv64, b: bv64, mask: bv64)
    ensures Clear(Or(a, b), mask) <==> Clear(a, mask) && Clear(b, mask)
  {
    hide Clear;
    EitherSet(a, b, mask);
  }

  lemma SubWords(a: bv64, b: bv64)
    ensures Clear(a, !a) && (Clear(a, !b) && Clear(b, !a) ==> a == b)
  {
  }

  /** A word is determined by the masks that do not meet it. */
  lemma SameMasks(a: bv64, b: bv64)
    requires forall mask :: Clear(a, mask) <==> Clear(b, mask)
    ensures a == b
  {
    hide Clear;
    SubWords(a, b);
    SubWords(b, a);
  }

  lemma ZeroClear()
    ensures forall mask :: Clear(0, mask)
  {
  }
}
