/** Values shared by the accumulator's components. */
module Common {
  datatype Option<+T> = None | Some(value: T) {
    predicate IsFailure() { None? }

    function PropagateFailure<U>(): Option<U>
      requires IsFailure()
    { None }

    function Extract(): T
      requires !IsFailure()
    { value }
  }

  datatype Result<+T> = Ok(value: T) | Err(error: string)

  /** A 32-byte hash. It is only compared and combined, so its bytes stay opaque. */
  type Hash(==, !new)

  /** The hash of a branch from the hashes of its two children. */
  type Combine = (Hash, Hash) -> Hash

  type NodeId = nat
  const NO_NODE: nat := 0xFFFF_FFFF

  ghost predicate Injective(parentHash: Combine) {
    forall a, b, c, d :: parentHash(a, b) == parentHash(c, d) ==> a == c && b == d
  }
}
