/** Sizes of the C language's types, values that may be absent, and a guard for what proofs rarely need. */
module Machine {
  datatype Option<T> = None | Some(value: T)

  const INT_MAX: nat := 0x7fff_ffff
  const SIZE_MAX: nat := 0xffff_ffff_ffff_ffff
  const TWO32: nat := 0x1_0000_0000
  const TWO64: nat := 0x1_0000_0000_0000_0000

  /** A fact that is guarded by this predicate is seen only by proofs that mention it. */
  ghost predicate Asked(b: bool) {
    true
  }
}
