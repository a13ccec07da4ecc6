/** Half-open address ranges of guest code. */
module Regions {
  const ADDRESS_LIMIT: int := 0x1_0000_0000

  datatype Region = Region(begin: nat, end: nat) {
    /** Nonempty and inside the address space. */
    predicate Usable() {
      begin < end && end <= ADDRESS_LIMIT
    }

    predicate Has(a: nat) {
      begin <= a < end
    }

    predicate Contains(inner: Region) {
      begin <= inner.begin && inner.end <= end
    }
  }
}
