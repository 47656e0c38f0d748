/** What the JIT's two register caches share: how the code generators ask for registers. */
module JitHelpers {

  const INT_MAX: int := 0x7fff_ffff
  const INT_MIN: int := -0x8000_0000
  type CInt = x: int | -0x8000_0000 <= x <= 0x7fff_ffff

  /** Registers start .. end, less end. */
  datatype RegSet = RegSet(start: nat, end: nat)

  datatype AccessType = AccessType(read: bool, write: bool)

  datatype Overlap = None | Aligned | AlignedSubset | AlignedSuperset | Subset | Superset | Unaligned

  /** Slots pos .. pos+len lie within outer .. outer+outerLen. */
  predicate Within(pos: nat, len: nat, outer: nat, outerLen: nat) {
    outer <= pos && pos + len <= outer + outerLen
  }
}
