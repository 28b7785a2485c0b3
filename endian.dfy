/** Byte-order helpers (endian.h): the three byte swaps, the byte image of a
    word in host memory, and the conditional swap that makes the header's
    fields little-endian on every host.  The host's byte order, which the C
    code probes with isBig/isLittle, is a parameter `big` here. */
module Endian {
  import opened Bytes

  /** Byte `i` (0 = least significant) of a 16-bit word. */
  function Byte16(x: bv16, i: nat): bv8
    requires i < 2
  {
    if i == 0 then (x & 0xFF) as bv8 else ((x >> 8) & 0xFF) as bv8
  }

  /** Byte `i` (0 = least significant) of a 32-bit word. */
  function Byte32(x: bv32, i: nat): bv8
    requires i < 4
  {
    match i
    case 0 => (x & 0xFF) as bv8
    case 1 => ((x >> 8) & 0xFF) as bv8
    case 2 => ((x >> 16) & 0xFF) as bv8
    case _ => ((x >> 24) & 0xFF) as bv8
  }

  /** Byte `i` (0 = least significant) of a 64-bit word. */
  function Byte64(x: bv64, i: nat): bv8
    requires i < 8
  {
    match i
    case 0 => (x & 0xFF) as bv8
    case 1 => ((x >> 8) & 0xFF) as bv8
    case 2 => ((x >> 16) & 0xFF) as bv8
    case 3 => ((x >> 24) & 0xFF) as bv8
    case 4 => ((x >> 32) & 0xFF) as bv8
    case 5 => ((x >> 40) & 0xFF) as bv8
    case 6 => ((x >> 48) & 0xFF) as bv8
    case _ => ((x >> 56) & 0xFF) as bv8
  }

  /** A number below 2^16 stored in a 16-bit field, built from its high and
      its low byte. */
  function Word16(n: nat): bv16
    requires n < 0x1_0000
  {
    (((n / 256) as bv8 as bv16) << 8) | ((n % 256) as bv8 as bv16)
  }

  /** The number a 16-bit field holds, read from its two bytes. */
  function Value16(x: bv16): nat
  {
    Byte16(x, 1) as int * 256 + Byte16(x, 0) as int
  }

  /** Storing a number in a 16-bit field and reading it back gives the
      number. */
  lemma Word16Value(n: nat)
    requires n < 0x1_0000
    ensures Value16(Word16(n)) == n
  {
    ByteValue(n / 256);
    ByteValue(n % 256);
    WordBytes((n / 256) as bv8, (n % 256) as bv8);
  }

  /** The two bytes a 16-bit word is made from are its bytes. */
  lemma WordBytes(hi: bv8, lo: bv8)
    ensures Byte16(((hi as bv16) << 8) | (lo as bv16), 1) == hi
    ensures Byte16(((hi as bv16) << 8) | (lo as bv16), 0) == lo
  {
  }

  /** swap16: the low and the high byte change places. */
  function Swap16(x: bv16): (r: bv16)
    ensures Byte16(r, 0) == Byte16(x, 1) && Byte16(r, 1) == Byte16(x, 0)
  {
    ((x & 0x00FF) << 8) | ((x & 0xFF00) >> 8)
  }

  /** swap32: byte i of the result is byte 3 - i of the argument. */
  function Swap32(x: bv32): (r: bv32)
    ensures Byte32(r, 0) == Byte32(x, 3) && Byte32(r, 1) == Byte32(x, 2)
    ensures Byte32(r, 2) == Byte32(x, 1) && Byte32(r, 3) == Byte32(x, 0)
  {
    ((x & 0x000000FF) << 24)
    | ((x & 0x0000FF00) << 8)
    | ((x & 0x00FF0000) >> 8)
    | ((x & 0xFF000000) >> 24)
  }

  /** swap64: byte i of the result is byte 7 - i of the argument. */
  function Swap64(x: bv64): (r: bv64)
    ensures Byte64(r, 0) == Byte64(x, 7) && Byte64(r, 1) == Byte64(x, 6)
    ensures Byte64(r, 2) == Byte64(x, 5) && Byte64(r, 3) == Byte64(x, 4)
    ensures Byte64(r, 4) == Byte64(x, 3) && Byte64(r, 5) == Byte64(x, 2)
    ensures Byte64(r, 6) == Byte64(x, 1) && Byte64(r, 7) == Byte64(x, 0)
  {
    ((x & 0x00000000000000FF) << 56)
    | ((x & 0x000000000000FF00) << 40)
    | ((x & 0x0000000000FF0000) << 24)
    | ((x & 0x00000000FF000000) << 8)
    | ((x & 0x000000FF00000000) >> 8)
    | ((x & 0x0000FF0000000000) >> 24)
    | ((x & 0x00FF000000000000) >> 40)
    | ((x & 0xFF00000000000000) >> 56)
  }

  lemma Swap16Involution(x: bv16)
    ensures Swap16(Swap16(x)) == x
  {
  }

  lemma Swap32Involution(x: bv32)
    ensures Swap32(Swap32(x)) == x
  {
  }

  lemma Swap64Involution(x: bv64)
    ensures Swap64(Swap64(x)) == x
  {
  }

  /** `isBig() ? swap16(x) : x`: a 16-bit field turned into (or read back
      from) the canonical little-endian order.  Stored on a host of either
      order, the result has x's little-endian bytes. */
  function Canonical16(x: bv16, big: bool): (r: bv16)
    ensures Memory16(r, big) == Memory16(x, false)
  {
    if big then Swap16(x) else x
  }

  /** `isBig() ? swap32(x) : x` */
  function Canonical32(x: bv32, big: bool): (r: bv32)
    ensures Memory32(r, big) == Memory32(x, false)
  {
    if big then Swap32(x) else x
  }

  /** `isBig() ? swap64(x) : x` */
  function Canonical64(x: bv64, big: bool): (r: bv64)
    ensures Memory64(r, big) == Memory64(x, false)
  {
    if big then Swap64(x) else x
  }

  /** The bytes of a 16-bit word as they lie in memory, lowest address first. */
  function Memory16(x: bv16, big: bool): (r: seq<bv8>)
    ensures |r| == 2
  {
    if big then [Byte16(x, 1), Byte16(x, 0)] else [Byte16(x, 0), Byte16(x, 1)]
  }

  function Memory32(x: bv32, big: bool): (r: seq<bv8>)
    ensures |r| == 4
  {
    var le := [Byte32(x, 0), Byte32(x, 1), Byte32(x, 2), Byte32(x, 3)];
    if big then [le[3], le[2], le[1], le[0]] else le
  }

  function Memory64(x: bv64, big: bool): (r: seq<bv8>)
    ensures |r| == 8
  {
    var le := [Byte64(x, 0), Byte64(x, 1), Byte64(x, 2), Byte64(x, 3),
               Byte64(x, 4), Byte64(x, 5), Byte64(x, 6), Byte64(x, 7)];
    if big then [le[7], le[6], le[5], le[4], le[3], le[2], le[1], le[0]] else le
  }

  /** The 16-bit word a host sees in two bytes of memory. */
  function Load16(b: seq<bv8>, big: bool): bv16
    requires |b| == 2
  {
    var le := if big then [b[1], b[0]] else b;
    ((le[1] as bv16) << 8) | (le[0] as bv16)
  }

  function Load32(b: seq<bv8>, big: bool): bv32
    requires |b| == 4
  {
    var le := if big then [b[3], b[2], b[1], b[0]] else b;
    ((le[3] as bv32) << 24) | ((le[2] as bv32) << 16)
    | ((le[1] as bv32) << 8) | (le[0] as bv32)
  }

  function Load64(b: seq<bv8>, big: bool): bv64
    requires |b| == 8
  {
    var le := if big then [b[7], b[6], b[5], b[4], b[3], b[2], b[1], b[0]] else b;
    ((le[7] as bv64) << 56) | ((le[6] as bv64) << 48)
    | ((le[5] as bv64) << 40) | ((le[4] as bv64) << 32)
    | ((le[3] as bv64) << 24) | ((le[2] as bv64) << 16)
    | ((le[1] as bv64) << 8) | (le[0] as bv64)
  }

  /** Loading what was stored gives the word back. */
  lemma LoadMemory16(x: bv16, big: bool)
    ensures Load16(Memory16(x, big), big) == x
  {
  }

  lemma LoadMemory32(x: bv32, big: bool)
    ensures Load32(Memory32(x, big), big) == x
  {
  }

  lemma LoadMemory64(x: bv64, big: bool)
    ensures Load64(Memory64(x, big), big) == x
  {
  }
}
