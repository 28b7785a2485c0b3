/** buffered_write (encode.c:63-83): bytes go into the static buffer of
    BLK bytes; each time it fills, the whole block is written to the file,
    and a flush writes whatever remains. */
module BlockWrite {

  /** w is a whole number of n-byte blocks. */
  ghost predicate Blocks(w: seq<bv8>, n: nat)
    decreases |w|
  {
    w == [] || (0 < n <= |w| && Blocks(w[n..], n))
  }

  lemma {:induction false} BlocksAppend(w: seq<bv8>, block: seq<bv8>, n: nat)
    requires Blocks(w, n) && 0 < n && |block| == n
    ensures Blocks(w + block, n)
    decreases |w|
  {
    if w == [] {
      assert (w + block)[n..] == [];
    } else {
      BlocksAppend(w[n..], block, n);
      assert (w + block)[n..] == w[n..] + block;
    }
  }

  /** A file written from o0 on in whole blocks stays so after one more
      write of nothing or of one block. */
  lemma BlocksGrow(o0: seq<bv8>, o: seq<bv8>, o': seq<bv8>, n: nat)
    requires 0 < n && o0 <= o <= o' && Blocks(o[|o0|..], n)
    requires |o'| == |o| || |o'| == |o| + n
    ensures Blocks(o'[|o0|..], n)
  {
    if |o'| == |o| {
      assert o'[|o0|..] == o[|o0|..];
    } else {
      BlocksAppend(o[|o0|..], o'[|o|..], n);
      assert o'[|o0|..] == o[|o0|..] + o'[|o|..];
    }
  }

  class BlockWriter {
    var buffer: array<bv8>
    var blkP: nat
    var out: seq<bv8>

    /** Every byte handed to the writer so far, in order. */
    ghost var data: seq<bv8>

    /** blkP stays inside the buffer, and the bytes handed over are those
        in the file followed by the first blkP of the buffer. */
    ghost predicate Valid()
      reads this, buffer
    {
      0 < buffer.Length && blkP < buffer.Length && data == out + buffer[..blkP]
    }

    /** The static initial state: an empty buffer of blk bytes. */
    constructor (blk: nat)
      requires 0 < blk
      ensures Valid() && fresh(buffer) && buffer.Length == blk
      ensures blkP == 0 && out == [] && data == []
    {
      buffer := new bv8[blk](_ => 0);
      blkP := 0;
      out := [];
      data := [];
    }

    /** buffered_write(file, b, |b|, flush).  Writes to the file are
        whole blocks, except for the final flush of the remainder, after
        which the file holds every byte handed over.  The file write never
        fails here, so the result is always true. */
    method BufferedWrite(b: seq<bv8>, flush: bool) returns (ok: bool)
      requires Valid()
      modifies this, buffer
      ensures Valid() && buffer == old(buffer) && ok
      ensures data == old(data) + b
      ensures old(out) <= out
      ensures !flush ==> Blocks(out[|old(out)|..], buffer.Length)
      ensures flush ==> blkP == 0 && out == data
    {
      assert out[|out|..] == [];
      for i := 0 to |b|
        invariant Valid() && buffer == old(buffer)
        invariant data == old(data) + b[..i]
        invariant old(out) <= out && Blocks(out[|old(out)|..], buffer.Length)
      {
        ghost var o := out;
        Put(b[i]);
        BlocksGrow(old(out), o, out, buffer.Length);
        assert b[..i + 1] == b[..i] + [b[i]];
      }
      assert b[..|b|] == b;
      if flush && blkP > 0 {
        out := out + buffer[..blkP];
        blkP := 0;
      }
      ok := true;
    }

    /** One step of buffered_write's loop (encode.c:67-74). */
    method Put(x: bv8)
      requires Valid()
      modifies this, buffer
      ensures Valid() && buffer == old(buffer)
      ensures data == old(data) + [x]
      ensures old(out) <= out && (|out| == |old(out)| || |out| == |old(out)| + buffer.Length)
    {
      ghost var o := out;
      ghost var k := old(buffer[..blkP]);
      buffer[blkP] := x;
      assert buffer[..blkP + 1] == k + [x];
      blkP := blkP + 1;
      data := data + [x];
      if blkP == buffer.Length {
        out := out + buffer[..];
        blkP := 0;
        assert buffer[..] == buffer[..buffer.Length];
        assert |out| - |o| == buffer.Length;
      }
    }
  }
}
