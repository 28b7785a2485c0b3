/** The two programs end to end.  The encoder's main (encode.c:287-307)
    writes the header, the saved tree and the code bits of the file; the
    decoder's main (decode.c:187-233) checks the header, reads and loads the
    saved tree and decodes the rest.  Decoding what the encoder wrote gives
    back the file and its permission bits, whatever the byte order of the
    two hosts. */
module Compressor {
  import opened Huffman
  import opened Wrappers
  import opened Bytes
  import opened Endian
  import opened HeaderFormat
  import opened BlockWrite
  import opened Codes
  import opened CodeTable
  import opened TreeCodec
  import opened TreeBuild
  import opened Encode
  import opened Decode
  import Seqs

  /** How the decoder stops: a short header ("Read of header failed"), a
      wrong magic number, a short saved tree ("Read of tree failed"), a
      saved tree loadTree rejects, an empty one ("Loading tree failed"), or
      the crash on a single-leaf tree. */
  datatype FileError = HeaderShort | BadMagic | TreeShort | BadTree(e: LoadError) | NoTree | Crash(d: DecodeError)

  /** What the decoder restores: the permission bits it gives the output
      file and the output bytes. */
  datatype Restored = Restored(permissions: bv16, data: seq<bv8>)

  /** What the decoder makes of a saved tree and the code bits after it:
      loadTree (decode.c:221-227), then decodeFile (decode.c:233). */
  function Restore(saved: seq<bv8>, codes: seq<bv8>, permissions: bv16, len: nat): (r: Result<Restored, FileError>)
  {
    match Load(saved)
    case Failure(e) => Failure(BadTree(e))
    case Success(None) => Failure(NoTree)
    case Success(Some(t)) =>
      match Walk(t, t, BitsOf(codes), len)
      case Failure(e) => Failure(Crash(e))
      case Success(out) => Success(Restored(permissions, out))
  }

  /** The decoder's result for a compressed file read on a host of the
      given byte order. */
  function Decompressed(file: seq<bv8>, big: bool): (r: Result<Restored, FileError>)
  {
    if |file| < SIZE then Failure(HeaderShort)
    else Checked(Canonical(ReadImage(file[..SIZE], big), big), file[SIZE..])
  }

  /** What the decoder makes of the bytes after the header h: the magic
      number checked, then the saved tree of h.treeSize bytes and the code
      bits after it restored. */
  function Checked(h: Header, rest: seq<bv8>): (r: Result<Restored, FileError>)
  {
    var treeBytes := Value16(h.treeSize);
    if h.magic != MAGIC then Failure(BadMagic)
    else if |rest| < treeBytes then Failure(TreeShort)
    else Restore(rest[..treeBytes], rest[treeBytes..], h.permissions, h.fileSize as int)
  }

  /** decodeFile on the rest of the file once the tree is loaded, with a
      reader of kb bytes and a writer of blk bytes: the walk's result, the
      output flushed. */
  method DecodeCodes(t: Tree, codes: seq<bv8>, len: nat, kb: nat, blk: nat)
    returns (r: Result<seq<bv8>, DecodeError>)
    requires 0 < kb && 0 < blk
    ensures r == Walk(t, t, BitsOf(codes), len)
  {
    var reader := new BitReader(codes, kb);
    var w := new BlockWriter(blk);
    assert reader.Remaining() == BitsOf(codes);
    var err := DecodeFile(t, reader, len, w);
    if err.Some? {
      assert Walk(t, t, BitsOf(codes), len) == Failure(err.value);
      return Failure(err.value);
    }
    assert Walk(t, t, BitsOf(codes), len).Success?;
    assert w.data == [] + Walk(t, t, BitsOf(codes), len).value;
    assert w.out == Walk(t, t, BitsOf(codes), len).value;
    r := Success(w.out);
  }

  /** loadTree on the saved tree, then decodeFile on the code bits. */
  method RestoreFile(saved: seq<bv8>, codes: seq<bv8>, permissions: bv16, len: nat, kb: nat, blk: nat)
    returns (r: Result<Restored, FileError>)
    requires 0 < kb && 0 < blk
    ensures r == Restore(saved, codes, permissions, len)
  {
    var loaded := LoadTree(saved);
    if loaded.Failure? {
      return Failure(BadTree(loaded.error));
    }
    if loaded.value.None? {
      return Failure(NoTree);
    }
    var t := loaded.value.value;
    var decoded := DecodeCodes(t, codes, len, kb, blk);
    if decoded.Failure? {
      return Failure(Crash(decoded.error));
    }
    r := Success(Restored(permissions, decoded.value));
  }

  /** The decoder's main from the header on, with the input file as bytes,
      the reader's buffer of kb (KB) bytes and the writer's of blk (BLK):
      read the header, swap its fields on a big-endian host, check the
      magic number, read the saved tree and restore the file. */
  method Decompress(file: seq<bv8>, big: bool, kb: nat, blk: nat) returns (r: Result<Restored, FileError>)
    requires 0 < kb && 0 < blk
    ensures r == Decompressed(file, big)
  {
    if |file| < SIZE {
      return Failure(HeaderShort);
    }
    var h := Canonical(ReadImage(file[..SIZE], big), big);
    var rest := file[SIZE..];
    var treeBytes := Value16(h.treeSize);
    if h.magic != MAGIC {
      return Failure(BadMagic);
    }
    if |rest| < treeBytes {
      return Failure(TreeShort);
    }
    r := RestoreFile(rest[..treeBytes], rest[treeBytes..], h.permissions, h.fileSize as int, kb, blk);
  }

  /** Trees of the same shape have the same paths. */
  lemma {:induction false} SameShapePath(a: Tree, b: Tree, p: seq<bool>, x: int)
    requires SameShape(a, b) && IsPath(a, p, x)
    ensures IsPath(b, p, x)
  {
    match a
    case Leaf(_, _) =>
    case Node(_, l, r) =>
      if p[0] {
        SameShapePath(r, b.right, p[1..], x);
      } else {
        SameShapePath(l, b.left, p[1..], x);
      }
  }

  /** A path from a leaf to symbol s is empty, and the leaf is s's. */
  lemma PathToLeaf(c: Tree, q: seq<bool>, s: bv8)
    requires c.Leaf? && IsPath(c, q, s as int)
    ensures q == [] && c.symbol == s
  {
    ByteInjective(c.symbol, s);
  }

  /** Following a path from an interior node emits the symbol at its end
      and returns to the root. */
  lemma {:induction false} WalkPath(root: Tree, n: Tree, p: seq<bool>, rest: seq<bool>, len: nat, s: bv8)
    requires n.Node? && IsPath(n, p, s as int) && len > 0
    ensures Walk(root, n, p + rest, len) == Prepend([s], Walk(root, root, rest, len - 1))
    decreases |p|
  {
    Seqs.DropConcat(p, rest);
    var c := if p[0] then n.right else n.left;
    if c.Leaf? {
      PathToLeaf(c, p[1..], s);
      assert p[1..] + rest == rest;
    } else {
      WalkPath(root, c, p[1..], rest, len, s);
    }
  }

  /** Every code in the table for the bytes of S is the path to its byte. */
  ghost predicate CodesArePaths(root: Tree, table: Table, S: seq<bv8>)
    requires Covers(table, S)
  {
    forall i :: 0 <= i < |S| ==> IsPath(root, Bits(table[S[i] as int]), S[i] as int)
  }

  lemma CodesArePathsDrop(root: Tree, table: Table, S: seq<bv8>)
    requires S != [] && Covers(table, S) && CodesArePaths(root, table, S)
    ensures Covers(table, S[1..]) && CodesArePaths(root, table, S[1..])
    ensures IsPath(root, Bits(table[S[0] as int]), S[0] as int)
  {
    CoversDrop(table, S, 1);
    forall i | 0 <= i < |S[1..]|
      ensures IsPath(root, Bits(table[S[1..][i] as int]), S[1..][i] as int)
    {
      assert S[1..][i] == S[i + 1];
    }
  }

  /** Decoding the code bits of S, when every code is a path to its symbol
      in the decoder's tree, gives back S, whatever bits follow. */
  lemma {:induction false} WalkEncoded(root: Tree, table: Table, S: seq<bv8>, tail: seq<bool>)
    requires root.Node? && Covers(table, S) && CodesArePaths(root, table, S)
    ensures Walk(root, root, EncodeBits(table, S) + tail, |S|) == Success(S)
    decreases |S|
  {
    if S != [] {
      CodesArePathsDrop(root, table, S);
      var code := Bits(table[S[0] as int]);
      var more := EncodeBits(table, S[1..]);
      assert EncodeBits(table, S) == code + more;
      WalkEncoded(root, table, S[1..], tail);
      WalkCons(root, code, more, tail, S[0], S[1..]);
      assert [S[0]] + S[1..] == S;
    }
  }

  /** The path to s followed by bits that decode to rest decodes to s and
      then rest. */
  lemma WalkCons(root: Tree, code: seq<bool>, more: seq<bool>, tail: seq<bool>, s: bv8, rest: seq<bv8>)
    requires root.Node? && IsPath(root, code, s as int)
    requires Walk(root, root, more + tail, |rest|) == Success(rest)
    ensures Walk(root, root, code + more + tail, |rest| + 1) == Success([s] + rest)
  {
    Seqs.Assoc(code, more, tail);
    WalkPath(root, root, code, more + tail, |rest| + 1, s);
  }

  /** Every byte of the file is a symbol of the tree buildTree builds. */
  lemma InputInTree(input: seq<bv8>, full: bool)
    ensures BuiltTree(input, full).Some?
    ensures forall i :: 0 <= i < |input| ==> Has(BuiltTree(input, full).value, input[i] as int)
  {
    BuiltTreeShape(input, full);
    forall i | 0 <= i < |input| ensures Has(BuiltTree(input, full).value, input[i] as int) {
      OccPositive(input, i);
      HasSyms(BuiltTree(input, full).value, input[i] as int);
    }
  }

  /** The codes of the tree's symbols are the paths to them in the tree the
      decoder loads. */
  lemma TableDecodes(t: Tree, width: nat, S: seq<bv8>)
    requires Depth(t) <= 8 * width
    requires forall i :: 0 <= i < |S| ==> Has(t, S[i] as int)
    ensures Covers(CodeTableOf(t, width, map[]), S)
    ensures forall i :: 0 <= i < |S| ==>
      IsPath(Reload(t), Bits(CodeTableOf(t, width, map[])[S[i] as int]), S[i] as int)
  {
    var m := CodeTableOf(t, width, map[]);
    CodesPrefixFree(t, width, map[]);
    ReloadShape(t);
    forall i | 0 <= i < |S| ensures IsPath(Reload(t), Bits(m[S[i] as int]), S[i] as int) {
      PathOfIsPath(t, S[i] as int);
      SameShapePath(t, Reload(t), PathOf(t, S[i] as int), S[i] as int);
    }
  }

  /** The header the encoder writes, before the host's byte order is
      applied: tree_size set by buildTree, file_size by main from the size
      of the input file. */
  function FileHeader(permissions: bv16, treeBytes: nat, size: bv64): Header
    requires treeBytes < 0x1_0000
  {
    Header(MAGIC, permissions, Word16(treeBytes), size)
  }

  /** A header with the magic number and the size of the saved tree after
      it, written on one host and read on another, hands the saved tree and
      the code bits to loadTree and decodeFile. */
  lemma HeaderPart(H: Header, bigWriter: bool, bigReader: bool, saved: seq<bv8>, codes: seq<bv8>)
    requires H.magic == MAGIC && Value16(H.treeSize) == |saved|
    ensures Decompressed(Image(Canonical(H, bigWriter), bigWriter) + saved + codes, bigReader)
            == Restore(saved, codes, H.permissions, H.fileSize as int)
  {
    var img := Image(Canonical(H, bigWriter), bigWriter);
    var file := img + saved + codes;
    HeaderRoundTrip(H, bigWriter, bigReader);
    assert file[..SIZE] == img;
    assert file[SIZE..] == saved + codes;
    assert (saved + codes)[..|saved|] == saved;
    assert (saved + codes)[|saved|..] == codes;
  }

  /** Bytes that begin with the code bits of S decode to S in a tree in
      which every code is the path to its symbol. */
  lemma CodesDecode(root: Tree, table: Table, S: seq<bv8>, codes: seq<bv8>)
    requires root.Node? && Covers(table, S) && CodesArePaths(root, table, S)
    requires |EncodeBits(table, S)| <= 8 * |codes| && BitsOf(codes)[..|EncodeBits(table, S)|] == EncodeBits(table, S)
    ensures Walk(root, root, BitsOf(codes), |S|) == Success(S)
  {
    var E := EncodeBits(table, S);
    var bits := BitsOf(codes);
    assert bits == E + bits[|E|..];
    WalkEncoded(root, table, S, bits[|E|..]);
  }

  /** The code table buildCode makes from the built tree covers the input,
      and each code is the path to its byte in the tree loadTree rebuilds. */
  lemma BuiltCodesDecode(input: seq<bv8>, full: bool, width: nat)
    requires BYTE <= 8 * width
    ensures BuiltTree(input, full).Some? && Reload(BuiltTree(input, full).value).Node?
    ensures var table := CodeTableOf(BuiltTree(input, full).value, width, map[]);
      Covers(table, input) && CodesArePaths(Reload(BuiltTree(input, full).value), table, input)
  {
    BuiltTreeShape(input, full);
    var t := BuiltTree(input, full).value;
    DepthBound(t);
    InputInTree(input, full);
    TableDecodes(t, width, input);
  }

  /** The saved tree of the built tree, followed by bytes that begin with
      the code bits of the input, restores the input. */
  lemma TreePart(input: seq<bv8>, full: bool, permissions: bv16, width: nat, codes: seq<bv8>)
    requires BYTE <= 8 * width
    requires BuiltTree(input, full).Some?
    requires Covers(CodeTableOf(BuiltTree(input, full).value, width, map[]), input)
    requires var E := EncodeBits(CodeTableOf(BuiltTree(input, full).value, width, map[]), input);
      |E| <= 8 * |codes| && BitsOf(codes)[..|E|] == E
    ensures Restore(Dump(BuiltTree(input, full).value), codes, permissions, |input|)
            == Success(Restored(permissions, input))
  {
    var t := BuiltTree(input, full).value;
    LoadDump(t);
    BuiltCodesDecode(input, full, width);
    CodesDecode(Reload(t), CodeTableOf(t, width, map[]), input, codes);
  }

  /** The round trip on the file: header, saved tree and code bits as the
      encoder lays them out decode to the input, on either host. */
  lemma FileRoundTrip(input: seq<bv8>, full: bool, permissions: bv16, origSize: bv64,
                      bigWriter: bool, bigReader: bool, width: nat, codes: seq<bv8>)
    requires origSize as int == |input| && BYTE <= 8 * width
    requires BuiltTree(input, full).Some?
    requires Covers(CodeTableOf(BuiltTree(input, full).value, width, map[]), input)
    requires var E := EncodeBits(CodeTableOf(BuiltTree(input, full).value, width, map[]), input);
      |E| <= 8 * |codes| && BitsOf(codes)[..|E|] == E
    ensures TreeBytes(|LeafSet(input, full)|) < 0x1_0000
    ensures Decompressed(Image(Canonical(FileHeader(permissions, TreeBytes(|LeafSet(input, full)|), origSize),
                                         bigWriter), bigWriter)
                         + Dump(BuiltTree(input, full).value) + codes, bigReader)
            == Success(Restored(permissions, input))
  {
    var t := BuiltTree(input, full).value;
    BuiltTreeShape(input, full);
    DumpPostOrder(t);
    var tb := TreeBytes(|LeafSet(input, full)|);
    assert tb == |Dump(t)|;
    Word16Value(tb);
    HeaderPart(FileHeader(permissions, tb, origSize), bigWriter, bigReader, Dump(t), codes);
    TreePart(input, full, permissions, width, codes);
  }

  /** The header main fills in, with the field buildTree sets. */
  lemma HeaderFields(permissions: bv16, treeBytes: nat, origSize: bv64, big: bool)
    requires treeBytes < 0x1_0000
    ensures Header(Canonical32(MAGIC, big), Canonical16(permissions, big), 0, Canonical64(origSize, big))
              .(treeSize := Canonical16(Word16(treeBytes), big))
            == Canonical(FileHeader(permissions, treeBytes, origSize), big)
  {
  }

  /** The first half of the encoder's main (encode.c:288-303): the header
      with the file's size and permission bits, buildTree, which fills in
      the tree size and writes the header, then dumpTree and the flush, all
      through a block writer of blk (BLK) bytes. */
  method WriteHead(input: seq<bv8>, origSize: bv64, full: bool, permissions: bv16, big: bool, blk: nat)
    returns (head: seq<bv8>, t: Tree)
    requires 0 < blk
    ensures BuiltTree(input, full) == Some(t) && TreeBytes(|LeafSet(input, full)|) < 0x1_0000
    ensures head == Image(Canonical(FileHeader(permissions, TreeBytes(|LeafSet(input, full)|), origSize), big), big)
                    + Dump(t)
  {
    var w := new BlockWriter(blk);
    var h := Header(Canonical32(MAGIC, big), Canonical16(permissions, big), 0, Canonical64(origSize, big));
    var built, leaves, treeBytes, hdr := BuildTree(input, full, h, big, w);
    Seqs.Unit(Image(hdr, big));
    BuiltTreeShape(input, full);
    t := built.value;
    DumpTree(w, t);
    ghost var d := w.data;
    var ok := w.BufferedWrite([], true);
    Seqs.Unit(d);
    HeaderFields(permissions, treeBytes, origSize, big);
    head := w.out;
  }

  /** The second half (encode.c:305-307): encodeFile through a bit writer of
      kb (KB) bytes.  The bytes written begin with the code bits of the
      input; the flush writes codeP / 8 + 1 bytes, so at least one and at
      most eight stale bits follow. */
  method WriteCodes(input: seq<bv8>, table: Table, kb: nat) returns (codes: seq<bv8>)
    requires 0 < kb && Covers(table, input)
    ensures |EncodeBits(table, input)| < 8 * |codes| <= |EncodeBits(table, input)| + 8
    ensures BitsOf(codes)[..|EncodeBits(table, input)|] == EncodeBits(table, input)
  {
    var bw := new BitWriter(kb);
    EncodeFile(input, table, bw);
    assert bw.stream == [] + EncodeBits(table, input);
    codes := bw.out;
  }

  /** The encoder's main from the header on (encode.c:287-307), on a file
      of |input| bytes whose size fstat gives as origSize, with the given
      permission bits, buffers of kb (KB) and blk (BLK) bytes and codes of
      width (CODE / 8) bytes.  What it writes decodes to the input on either
      host. */
  method Compress(input: seq<bv8>, origSize: bv64, full: bool, permissions: bv16, big: bool,
                  kb: nat, blk: nat, width: nat)
    returns (file: seq<bv8>)
    requires origSize as int == |input| && 0 < kb && 0 < blk && BYTE <= 8 * width
    ensures Decompressed(file, false) == Success(Restored(permissions, input))
    ensures Decompressed(file, true) == Success(Restored(permissions, input))
  {
    var head, t := WriteHead(input, origSize, full, permissions, big, blk);
    BuiltCodesDecode(input, full, width);
    var codes := WriteCodes(input, CodeTableOf(t, width, map[]), kb);
    file := head + codes;
    FileRoundTrip(input, full, permissions, origSize, big, false, width, codes);
    FileRoundTrip(input, full, permissions, origSize, big, true, width, codes);
  }
}
