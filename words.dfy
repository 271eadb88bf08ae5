/** Fixed-width machine words: the signed reading of a 64-bit register, the
    64-bit byte swap written out in read64/write64, and the byte layouts of
    32- and 64-bit values in memory. */
module Words {

  const TWO_TO_THE_64: int := 0x1_0000_0000_0000_0000

  /** The value of a 64-bit word read as a signed `int64_t` (two's complement). */
  function Signed64(v: bv64): int
  {
    if v < 0x8000_0000_0000_0000 then v as int else v as int - TWO_TO_THE_64
  }

  /** The byte reversal of a 64-bit value, exactly as read64 and write64 spell
      it: eight masked bytes, each shifted to the mirrored position. */
  function Swap64(value: bv64): bv64
  {
    ((value & 0xFF00000000000000) >> 56)
    | ((value & 0x00FF000000000000) >> 40)
    | ((value & 0x0000FF0000000000) >> 24)
    | ((value & 0x000000FF00000000) >>  8)
    | ((value & 0x00000000FF000000) <<  8)
    | ((value & 0x0000000000FF0000) << 24)
    | ((value & 0x000000000000FF00) << 40)
    | ((value & 0x00000000000000FF) << 56)
  }

  /** Swapping twice gives back the value: the swap on store and the swap on
      load cancel. */
  lemma Swap64Involutive(v: bv64)
    ensures Swap64(Swap64(v)) == v
  {
  }

  /** The canonical (big-endian) memory layout of a 64-bit value: byte k holds
      bits 63-8k down to 56-8k. */
  function BigEndianBytes64(v: bv64): (b: seq<bv8>)
    ensures |b| == 8
  {
    [(v >> 56) as bv8, ((v >> 48) & 0xFF) as bv8, ((v >> 40) & 0xFF) as bv8, ((v >> 32) & 0xFF) as bv8,
     ((v >> 24) & 0xFF) as bv8, ((v >> 16) & 0xFF) as bv8, ((v >> 8) & 0xFF) as bv8, (v & 0xFF) as bv8]
  }

  /** The 64-bit value whose canonical layout is `b`. */
  function BigEndianValue64(b: seq<bv8>): bv64
    requires |b| == 8
  {
    (b[0] as bv64 << 56) | (b[1] as bv64 << 48) | (b[2] as bv64 << 40) | (b[3] as bv64 << 32)
    | (b[4] as bv64 << 24) | (b[5] as bv64 << 16) | (b[6] as bv64 << 8) | b[7] as bv64
  }

  /** The bytes a little-endian host (x86-64) writes for a plain `uint64_t` store:
      least significant byte first. */
  function HostBytes64(v: bv64): (b: seq<bv8>)
    ensures |b| == 8
  {
    [(v & 0xFF) as bv8, ((v >> 8) & 0xFF) as bv8, ((v >> 16) & 0xFF) as bv8, ((v >> 24) & 0xFF) as bv8,
     ((v >> 32) & 0xFF) as bv8, ((v >> 40) & 0xFF) as bv8, ((v >> 48) & 0xFF) as bv8, (v >> 56) as bv8]
  }

  /** The value a little-endian host reads for a plain `uint64_t` load. */
  function HostValue64(b: seq<bv8>): bv64
    requires |b| == 8
  {
    b[0] as bv64 | (b[1] as bv64 << 8) | (b[2] as bv64 << 16) | (b[3] as bv64 << 24)
    | (b[4] as bv64 << 32) | (b[5] as bv64 << 40) | (b[6] as bv64 << 48) | (b[7] as bv64 << 56)
  }

  /** The canonical layout is a bijection between 64-bit values and 8-byte strings. */
  lemma BigEndian64RoundTrip(v: bv64, b: seq<bv8>)
    requires |b| == 8
    ensures BigEndianValue64(BigEndianBytes64(v)) == v
    ensures BigEndianBytes64(BigEndianValue64(b)) == b
  {
  }

  /** A little-endian host reads back what it stored. */
  lemma HostRoundTrip(v: bv64)
    ensures HostValue64(HostBytes64(v)) == v
  {
  }

  /** Storing the swapped value on a little-endian host lays the original value
      out big-endian. */
  lemma HostStoreOfSwapIsBigEndian(v: bv64)
    ensures HostBytes64(Swap64(v)) == BigEndianBytes64(v)
  {
  }

  /** Swapping what a little-endian host loads gives the big-endian reading of
      the bytes. */
  lemma SwapOfHostLoadIsBigEndian(b: seq<bv8>)
    requires |b| == 8
    ensures Swap64(HostValue64(b)) == BigEndianValue64(b)
  {
  }

  /** The canonical (network order) layout of a 32-bit value, as htonl produces it. */
  function BigEndianBytes32(v: bv32): (b: seq<bv8>)
    ensures |b| == 4
  {
    [(v >> 24) as bv8, ((v >> 16) & 0xFF) as bv8, ((v >> 8) & 0xFF) as bv8, (v & 0xFF) as bv8]
  }

  /** The 32-bit value whose network-order layout is `b`, as ntohl reads it. */
  function BigEndianValue32(b: seq<bv8>): bv32
    requires |b| == 4
  {
    (b[0] as bv32 << 24) | (b[1] as bv32 << 16) | (b[2] as bv32 << 8) | b[3] as bv32
  }

  /** The network-order layout is a bijection between 32-bit values and 4-byte strings. */
  lemma BigEndian32RoundTrip(v: bv32, b: seq<bv8>)
    requires |b| == 4
    ensures BigEndianValue32(BigEndianBytes32(v)) == v
    ensures BigEndianBytes32(BigEndianValue32(b)) == b
  {
  }
}
