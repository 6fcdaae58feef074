/** Definitions that proofs look into only where they say so. */
module Sealed {
  /** Always true; a definition sealed under it is seen only where it is mentioned. */
  predicate Unseal(n: nat) { true }
}
