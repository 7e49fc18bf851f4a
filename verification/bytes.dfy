/** Optional values, used for a NULL pointer result and for an error code that may be left unwritten. */
module Wrappers {
  datatype Option<+T> = None | Some(value: T)
}

/** Octets and the small arithmetic helpers the wire format needs. */
module Bytes {
  /** An unsigned 8-bit value (the source's `uint8_t`). */
  type Byte = b: int | 0 <= b < 256

  function Min(a: int, b: int): int
  {
    if a <= b then a else b
  }

  /** `n` zero bytes: the model's stand-in for memory that has not been written yet. */
  function Zeros(n: nat): (z: seq<Byte>)
    ensures |z| == n
    ensures forall j :: 0 <= j < n ==> z[j] == 0
  {
    seq(n, _ => 0)
  }

  /** A value below 65536 split into its high and low byte, and back. */
  lemma ByteSplit(hi: Byte, lo: Byte)
    ensures ((hi as int) * 256 + lo) / 256 == hi && ((hi as int) * 256 + lo) % 256 == lo
  {
  }

  /**
   * The 16-bit value `hi << 8 | lo`, the way the driver assembles both the
   * payload length of a response and the distance of `getFixedPointData`.
   */
  function LittleEndian16(lo: Byte, hi: Byte): (v: nat)
    ensures v < 65536
    ensures v % 256 == lo && v / 256 == hi
  {
    ByteSplit(hi, lo);
    (hi as int) * 256 + lo
  }

  /** Every 16-bit value is assembled from its own low and high byte. */
  lemma LittleEndian16RoundTrip(v: nat)
    requires v < 65536
    ensures LittleEndian16(v % 256, v / 256) == v
  {
  }
}
