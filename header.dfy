/** The 16-byte file header (header.h) and its canonical little-endian
    layout: the encoder stores every field through `isBig() ? swapN(x) : x`
    (encode.c:288-292, encode.c:125) and the decoder applies the same
    conditional swap after reading (decode.c:193-196). */
module HeaderFormat {
  import opened Endian

  /** MAGIC (huffman.h:7). */
  const MAGIC: bv32 := 0xdeaddead

  /** sizeof(Header): four fields without padding. */
  const SIZE: nat := 16

  datatype Header = Header(magic: bv32, permissions: bv16, treeSize: bv16, fileSize: bv64)

  /** Every field passed through the host's conditional swap.  The result
      has the same bytes on every host: h's little-endian image. */
  function Canonical(h: Header, big: bool): (r: Header)
    ensures Image(r, big) == Image(h, false)
  {
    Header(Canonical32(h.magic, big), Canonical16(h.permissions, big),
           Canonical16(h.treeSize, big), Canonical64(h.fileSize, big))
  }

  /** The struct's memory image on a host of the given byte order: the bytes
      that a raw write of the struct sends. */
  function Image(h: Header, big: bool): (r: seq<bv8>)
    ensures |r| == SIZE
  {
    Memory32(h.magic, big) + Memory16(h.permissions, big)
    + Memory16(h.treeSize, big) + Memory64(h.fileSize, big)
  }

  /** The struct a raw read of 16 bytes fills in. */
  function ReadImage(b: seq<bv8>, big: bool): Header
    requires |b| == SIZE
  {
    Header(Load32(b[0..4], big), Load16(b[4..6], big), Load16(b[6..8], big), Load64(b[8..16], big))
  }

  /** A header written on one host reads back unchanged on any host. */
  lemma HeaderRoundTrip(h: Header, bigWriter: bool, bigReader: bool)
    ensures Canonical(ReadImage(Image(Canonical(h, bigWriter), bigWriter), bigReader), bigReader) == h
  {
    var img := Image(Canonical(h, bigWriter), bigWriter);
    assert img == Image(h, false);
    assert img == Image(Canonical(h, bigReader), bigReader);
    var c := Canonical(h, bigReader);
    assert img[0..4] == Memory32(c.magic, bigReader);
    assert img[4..6] == Memory16(c.permissions, bigReader);
    assert img[6..8] == Memory16(c.treeSize, bigReader);
    assert img[8..16] == Memory64(c.fileSize, bigReader);
    LoadMemory32(c.magic, bigReader);
    LoadMemory16(c.permissions, bigReader);
    LoadMemory16(c.treeSize, bigReader);
    LoadMemory64(c.fileSize, bigReader);
    Swap32Involution(h.magic);
    Swap16Involution(h.permissions);
    Swap16Involution(h.treeSize);
    Swap64Involution(h.fileSize);
  }
}
