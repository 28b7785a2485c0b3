/** encodeFile (encode.c:182-196): a second pass over the input that
    appends the code of every byte, c[b[i]], to the bit writer, then
    flushes it. */
module Encode {
  import opened Huffman
  import opened Codes
  import opened CodeTable
  import Seqs

  /** Every byte of s has a well-formed code in the table. */
  ghost predicate Covers(table: Table, s: seq<bv8>)
  {
    forall i :: 0 <= i < |s| ==> s[i] as int in table && Wf(table[s[i] as int])
  }

  lemma CoversDrop(table: Table, s: seq<bv8>, k: nat)
    requires Covers(table, s) && k <= |s|
    ensures Covers(table, s[k..]) && Covers(table, s[..k])
  {
    forall i | 0 <= i < |s| - k ensures s[k..][i] as int in table && Wf(table[s[k..][i] as int]) {
      assert s[k..][i] == s[k + i];
    }
    forall i | 0 <= i < k ensures s[..k][i] as int in table && Wf(table[s[..k][i] as int]) {
      assert s[..k][i] == s[i];
    }
  }

  /** The code bits of s: the code of each byte in turn. */
  function EncodeBits(table: Table, s: seq<bv8>): (r: seq<bool>)
    requires Covers(table, s)
    ensures s != [] ==> Bits(table[s[0] as int]) <= r
    decreases |s|
  {
    if s == [] then []
    else
      CoversDrop(table, s, 1);
      Bits(table[s[0] as int]) + EncodeBits(table, s[1..])
  }

  /** The parts of a covered concatenation are covered. */
  lemma CoversSplit(table: Table, s: seq<bv8>, t: seq<bv8>)
    requires Covers(table, s + t)
    ensures Covers(table, s) && Covers(table, t)
  {
    CoversDrop(table, s + t, |s|);
    assert (s + t)[..|s|] == s && (s + t)[|s|..] == t;
  }

  /** Encoding a concatenation encodes each part in turn. */
  lemma {:induction false} EncodeConcat(table: Table, s: seq<bv8>, t: seq<bv8>)
    requires Covers(table, s + t)
    ensures Covers(table, s) && Covers(table, t)
    ensures EncodeBits(table, s + t) == EncodeBits(table, s) + EncodeBits(table, t)
    decreases |s|
  {
    CoversSplit(table, s, t);
    if s != [] {
      Seqs.DropConcat(s, t);
      CoversSplit(table, [s[0]], s[1..] + t);
      EncodeConcat(table, s[1..], t);
      Seqs.Assoc(Bits(table[s[0] as int]), EncodeBits(table, s[1..]), EncodeBits(table, t));
    } else {
      assert s + t == t;
    }
  }

  /** Encoding one more byte appends its code. */
  lemma EncodeSnoc(table: Table, s: seq<bv8>, x: bv8)
    requires Covers(table, s + [x])
    ensures Covers(table, s) && x as int in table && Wf(table[x as int])
    ensures EncodeBits(table, s + [x]) == EncodeBits(table, s) + Bits(table[x as int])
  {
    EncodeConcat(table, s, [x]);
    assert [x][1..] == [];
    assert Bits(table[x as int]) + [] == Bits(table[x as int]);
  }

  /** encodeFile: the stream grows by the code bits of the input, codeC by
      their number, and after the flush the file written from the start of
      the encoding holds them, at most 8 stale bits after them. */
  method EncodeFile(input: seq<bv8>, table: Table, bw: BitWriter)
    requires bw.Valid() && Covers(table, input)
    modifies bw, bw.codeB
    ensures bw.codeB == old(bw.codeB)
    ensures bw.stream == old(bw.stream) + EncodeBits(table, input)
    ensures bw.codeC == old(bw.codeC) + |EncodeBits(table, input)|
    ensures old(bw.out) <= bw.out
    ensures |bw.stream| < 8 * |bw.out| <= |bw.stream| + 8
    ensures BitsOf(bw.out)[..|bw.stream|] == bw.stream
  {
    ghost var s0 := bw.stream;
    assert input[..0] == [];
    for i := 0 to |input|
      invariant bw.Valid() && bw.codeB == old(bw.codeB) && old(bw.out) <= bw.out
      invariant Covers(table, input[..i])
      invariant bw.stream == s0 + EncodeBits(table, input[..i])
      invariant bw.codeC == old(bw.codeC) + |EncodeBits(table, input[..i])|
    {
      Seqs.TakeOne(input, i);
      CoversDrop(table, input, i + 1);
      EncodeSnoc(table, input[..i], input[i]);
      bw.AppendCode(table[input[i] as int]);
      Seqs.Assoc(s0, EncodeBits(table, input[..i]), Bits(table[input[i] as int]));
    }
    Seqs.TakeAll(input);
    bw.FlushCode();
  }
}
