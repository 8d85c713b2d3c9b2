/** Arithmetic facts the solver is told rather than left to find. */
module Arithmetic {
  lemma TimesMonotone(a: nat, b: nat, c: nat)
    requires a <= b
    ensures a * c <= b * c
  {}
}
