/** A way to keep definitions out of proofs that do not need them. A predicate defined as
    `forall k: nat {:trigger Show(k)} :: Show(k) ==> D` means just D, since Show always holds, but D
    is only seen where a proof asserts Show(0). */
module Shut {
  ghost predicate Show(k: nat) {
    true
  }
}
