/** The order of 16-bit register values, in the few facts that the loop over polynomials needs. */
module RegisterOrder {

  predicate Lt(a: bv16, b: bv16) { a < b }

  lemma NotBelowItself(poly: bv16)
    ensures !Lt(poly, poly)
  {
  }

  lemma BelowNextItself(poly: bv16)
    requires Lt(poly, 0x1000)
    ensures Lt(poly, poly + 1)
  {
  }

  lemma StaysBelow(poly: bv16, q: bv16)
    requires Lt(poly, 0x1000) && Lt(q, poly)
    ensures Lt(q, poly + 1)
  {
  }

  lemma WasBelow(poly: bv16, q: bv16)
    requires Lt(poly, 0x1000) && Lt(q, poly + 1) && q != poly
    ensures Lt(q, poly)
  {
  }

  /** What is below the next number is below this one or is this one. */
  lemma BelowNext(poly: bv16, q: bv16)
    requires Lt(poly, 0x1000)
    ensures Lt(q, poly + 1) <==> Lt(q, poly) || q == poly
  {
    hide Lt;
    BelowNextItself(poly);
    if Lt(q, poly) { StaysBelow(poly, q); }
    if Lt(q, poly + 1) && q != poly { WasBelow(poly, q); }
  }
}
