/** The decoder's bit reader and tree walk.  nextBit (decode.c:74-93) hands
    out the bits of the compressed file one at a time, least significant
    first within each byte, refilling a buffer of KB bytes with read();
    decodeFile (decode.c:95-128) walks the tree from the root, left on 0 and
    right on 1, emits the symbol of each leaf it reaches and starts again at
    the root, until `len` symbols are out or the bits run out. */
module Decode {
  import opened Huffman
  import opened Wrappers
  import opened Codes
  import opened BlockWrite
  import Seqs

  /** `(b >> i) & 0x1`, bit i of a byte as a number. */
  function BitValue(b: bv8, i: nat): (r: int)
    requires i < 8
    ensures r == if GetBit(b, i) then 1 else 0
  {
    if (b >> i) & 1 == 1 then 1 else 0
  }

  /** The first of the bits from position i of b on, followed by rest, and
      what remains after it. */
  lemma ReaderStep(b: seq<bv8>, i: nat, rest: seq<bool>)
    requires i < 8 * |b|
    ensures (BitsOf(b)[i..] + rest)[0] == GetBit(b[i / 8], i % 8)
    ensures (BitsOf(b)[i..] + rest)[1..] == BitsOf(b)[i + 1..] + rest
  {
    PendingAt(b, 8 * |b|, i);
    Seqs.DropConcat(BitsOf(b)[i..], rest);
    assert BitsOf(b)[i..][1..] == BitsOf(b)[i + 1..];
  }

  /** The static state of nextBit, reading from `input` at `pos`. */
  class BitReader {
    var input: seq<bv8>
    var pos: nat
    var bytes: array<bv8>
    var length: int
    var bitNo: nat

    ghost predicate Valid()
      reads this, bytes
    {
      0 < bytes.Length && 0 <= length <= bytes.Length && pos <= |input| && bitNo <= 8 * length
    }

    /** The bits nextBit has yet to hand out: the rest of the buffer, then
        the rest of the file. */
    ghost function Remaining(): seq<bool>
      reads this, bytes
      requires Valid()
    {
      BitsOf(bytes[..length])[bitNo..] + BitsOf(input[pos..])
    }

    /** The initial state: nothing buffered, the file at its start. */
    constructor (input: seq<bv8>, kb: nat)
      requires 0 < kb
      ensures Valid() && fresh(bytes) && bytes.Length == kb
      ensures this.input == input && Remaining() == BitsOf(input)
    {
      this.input := input;
      pos := 0;
      bytes := new bv8[kb](_ => 0);
      length := 0;
      bitNo := 0;
      new;
      assert BitsOf(bytes[..0]) == [];
      assert input[0..] == input;
    }

    /** read(file, bytes, KB): as many bytes as are left, up to the size of
        the buffer. */
    method Read() returns (n: int)
      requires Valid()
      modifies this, bytes
      ensures bytes == old(bytes) && input == old(input)
      ensures n == if |input| - old(pos) < bytes.Length then |input| - old(pos) else bytes.Length
      ensures pos == old(pos) + n && bytes[..n] == input[old(pos)..pos]
      ensures length == old(length) && bitNo == old(bitNo)
    {
      n := if |input| - pos < bytes.Length then |input| - pos else bytes.Length;
      for k := 0 to n
        invariant pos == old(pos) && bytes == old(bytes) && input == old(input)
        invariant length == old(length) && bitNo == old(bitNo)
        invariant bytes[..k] == input[pos..pos + k]
      {
        bytes[k] := input[pos + k];
        assert bytes[..k + 1] == bytes[..k] + [bytes[k]];
        assert input[pos..pos + k + 1] == input[pos..pos + k] + [input[pos + k]];
      }
      pos := pos + n;
    }

    /** The refill of nextBit (decode.c:83-89): once the buffer is used up,
        read the next block; false when nothing is left, with the buffer
        length read as 0. */
    method Refill() returns (ok: bool)
      requires Valid() && bitNo == 8 * length
      modifies this, bytes
      ensures bytes == old(bytes) && input == old(input)
      ensures ok <==> old(Remaining()) != []
      ensures ok ==> Valid() && bitNo < 8 * length && Remaining() == old(Remaining())
    {
      ghost var p0 := pos;
      assert BitsOf(bytes[..length])[bitNo..] == [];
      var n := Read();
      length := n;
      if length > 0 {
        bitNo := 0;
        assert input[p0..] == input[p0..pos] + input[pos..];
        BitsOfConcat(input[p0..pos], input[pos..]);
        ok := true;
      } else {
        assert input[p0..] == [];
        ok := false;
      }
    }

    /** nextBit: the next bit as 0 or 1, or -1 once the file is exhausted.
        On -1 the buffer length is left at 0, as in the source, so the state
        is no longer one this predicate describes. */
    method NextBit() returns (bit: int)
      requires Valid()
      modifies this, bytes
      ensures bytes == old(bytes) && input == old(input)
      ensures bit == -1 <==> old(Remaining()) == []
      ensures bit != -1 ==> Valid() && bit == (if old(Remaining())[0] then 1 else 0)
      ensures bit != -1 ==> Remaining() == old(Remaining())[1..]
    {
      if bitNo == 8 * length {
        var ok := Refill();
        if !ok {
          return -1;
        }
      }
      ReaderStep(bytes[..length], bitNo, BitsOf(input[pos..]));
      bit := BitValue(bytes[bitNo / 8], bitNo % 8);
      bitNo := bitNo + 1;
    }
  }

  /** decodeFile crashes when the tree is a single leaf: it steps from the
      root to a NULL child and reads it. */
  datatype DecodeError = NullChild

  /** A decoded prefix in front of the rest of the output. */
  function Prepend(o: seq<bv8>, r: Result<seq<bv8>, DecodeError>): Result<seq<bv8>, DecodeError>
  {
    match r
    case Success(x) => Success(o + x)
    case Failure(e) => Failure(e)
  }

  lemma PrependPrepend(o: seq<bv8>, o': seq<bv8>, r: Result<seq<bv8>, DecodeError>)
    ensures Prepend(o, Prepend(o', r)) == Prepend(o + o', r)
  {
    if r.Success? {
      Seqs.Assoc(o, o', r.value);
    }
  }

  lemma PrependEmpty(r: Result<seq<bv8>, DecodeError>)
    ensures Prepend([], r) == r
  {
    if r.Success? {
      assert [] + r.value == r.value;
    }
  }

  /** The symbols decodeFile emits from the bits, at node r of the tree with
      root `root`, with len symbols still wanted. */
  function Walk(root: Tree, r: Tree, bits: seq<bool>, len: nat): (w: Result<seq<bv8>, DecodeError>)
    ensures w.Success? ==> |w.value| <= len && |w.value| <= |bits|
    decreases |bits|
  {
    if len == 0 || bits == [] then Success([])
    else if r.Leaf? then Failure(NullChild)
    else
      var n := if bits[0] then r.right else r.left;
      if n.Leaf? then Prepend([n.symbol], Walk(root, root, bits[1..], len - 1))
      else Walk(root, n, bits[1..], len)
  }

  /** One step of the walk from an interior node, behind the symbols
      decoded so far. */
  lemma WalkStep(root: Tree, r: Tree, bits: seq<bool>, len: nat, dec: seq<bv8>)
    requires len > 0 && bits != [] && r.Node?
    ensures var c := if bits[0] then r.right else r.left;
      Prepend(dec, Walk(root, r, bits, len)) ==
        if c.Leaf? then Prepend(dec + [c.symbol], Walk(root, root, bits[1..], len - 1))
        else Prepend(dec, Walk(root, c, bits[1..], len))
  {
    var c := if bits[0] then r.right else r.left;
    if c.Leaf? {
      PrependPrepend(dec, [c.symbol], Walk(root, root, bits[1..], len - 1));
    }
  }

  /** Under an interior root the walk never fails, and at most len symbols
      come out, no more than there are bits. */
  lemma {:induction false} WalkBounds(root: Tree, r: Tree, bits: seq<bool>, len: nat)
    requires root.Node? && r.Node?
    ensures Walk(root, r, bits, len).Success?
    ensures |Walk(root, r, bits, len).value| <= len
    ensures |Walk(root, r, bits, len).value| <= |bits|
    decreases |bits|
  {
    if len == 0 || bits == [] {
    } else {
      var n := if bits[0] then r.right else r.left;
      if n.Leaf? {
        WalkBounds(root, root, bits[1..], len - 1);
      } else {
        WalkBounds(root, n, bits[1..], len);
      }
    }
  }

  /** A single-leaf tree fails on the first bit, and nothing is decoded
      when no symbols are wanted or no bits are left. */
  lemma WalkEdges(root: Tree, bits: seq<bool>, len: nat)
    ensures root.Leaf? && bits != [] && len > 0 ==> Walk(root, root, bits, len) == Failure(NullChild)
    ensures Walk(root, root, bits, 0) == Success([]) && Walk(root, root, [], len) == Success([])
  {
  }

  /** One step of the walk (decode.c:109-120): to the left child on 0 and
      the right one on 1, and at a leaf its symbol out and back to the root.
      The ghost parameters carry the decoding so far: `dec` is out, `whole`
      is what the walk yields in the end. */
  method Descend(root: Tree, r: Tree, b: int, n: nat, w: BlockWriter,
                 ghost bits: seq<bool>, ghost d0: seq<bv8>, ghost dec: seq<bv8>,
                 ghost whole: Result<seq<bv8>, DecodeError>)
    returns (r': Tree, n': nat, ghost dec': seq<bv8>)
    requires r.Node? && n > 0 && bits != [] && b == (if bits[0] then 1 else 0)
    requires w.Valid() && w.data == d0 + dec && whole == Prepend(dec, Walk(root, r, bits, n))
    modifies w, w.buffer
    ensures w.Valid() && w.buffer == old(w.buffer) && w.data == d0 + dec'
    ensures whole == Prepend(dec', Walk(root, r', bits[1..], n'))
  {
    WalkStep(root, r, bits, n, dec);
    r' := if b == 0 then r.left else r.right;
    n' := n;
    dec' := dec;
    if r'.Leaf? {
      n' := n - 1;
      dec' := dec + [r'.symbol];
      w.Put(r'.symbol);
      Seqs.Assoc(d0, dec, [r'.symbol]);
      r' := root;
    }
  }

  /** decodeFile(root, fileIn, fileOut, len), the output buffer being a
      writer of BLK bytes and the input the reader's remaining bits.  On
      success the file holds the decoded symbols, flushed; on the crash the
      writer is left as it was when the NULL child was reached. */
  method DecodeFile(root: Tree, reader: BitReader, len: nat, w: BlockWriter) returns (err: Option<DecodeError>)
    requires reader.Valid() && w.Valid() && reader.bytes != w.buffer
    modifies reader, reader.bytes, w, w.buffer
    ensures err.None? <==> Walk(root, root, old(reader.Remaining()), len).Success?
    ensures err.Some? ==> Walk(root, root, old(reader.Remaining()), len) == Failure(err.value)
    ensures err.None? ==> w.Valid() && w.out == w.data
    ensures err.None? ==> w.data == old(w.data) + Walk(root, root, old(reader.Remaining()), len).value
  {
    ghost var r0 := reader.Remaining();
    ghost var whole := Walk(root, root, r0, len);
    ghost var dec: seq<bv8> := [];
    ghost var d0 := w.data;
    ghost var bits := r0;
    var r := root;
    var n := len;
    PrependEmpty(whole);
    while n > 0
      invariant reader.Valid() && w.Valid() && w.buffer == old(w.buffer) && reader.bytes == old(reader.bytes)
      invariant w.data == d0 + dec && bits == reader.Remaining()
      invariant whole == Prepend(dec, Walk(root, r, bits, n))
      decreases |bits|
    {
      var b := reader.NextBit();
      if b == -1 {
        break;
      }
      if r.Leaf? {
        return Some(NullChild);
      }
      r, n, dec := Descend(root, r, b, n, w, bits, d0, dec, whole);
      bits := bits[1..];
    }
    var ok := w.BufferedWrite([], true);
    assert w.data == d0 + dec + [];
    err := None;
  }
}
