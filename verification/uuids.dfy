/** `java.util.UUID` as its two 64-bit halves, ordered the way `UUID.compareTo` orders them. */
module Uuids {
  import opened Longs

  datatype Uuid = Uuid(mostSigBits: Long, leastSigBits: Long)

  /** `UUID.compareTo` compares the most significant halves first and the least
      significant halves second, both as SIGNED longs. */
  predicate Less(a: Uuid, b: Uuid) {
    || a.mostSigBits < b.mostSigBits
    || (a.mostSigBits == b.mostSigBits && a.leastSigBits < b.leastSigBits)
  }
}
