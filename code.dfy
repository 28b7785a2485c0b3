/** Bit codes and the code-bit writer (code.h).  A `code` is a byte array
    `bits` of CODE / 8 bytes holding `l` bits, bit i stored LSB-first in byte
    i / 8.  C passes and assigns it by value (code.h:14-15), so it is a value
    here and pushCode/popCode return the updated code.  The writer state
    codeB/codeP/codeC is a class whose `out` is the file written so far. */
module Codes {
  import opened BlockWrite
  import Seqs

  /** `0x1 << i` for a bit position i of a byte. */
  function Mask(i: nat): bv8
    requires i < 8
  {
    match i
    case 0 => 0x01 case 1 => 0x02 case 2 => 0x04 case 3 => 0x08
    case 4 => 0x10 case 5 => 0x20 case 6 => 0x40 case _ => 0x80
  }

  /** Bit i (0 = least significant) of a byte. */
  function GetBit(b: bv8, i: nat): bool
    requires i < 8
  {
    b & Mask(i) != 0
  }

  /** The byte with bit i set to v: `b | (0x1 << i)` or `b & ~(0x1 << i)`. */
  function SetBit(b: bv8, i: nat, v: bool): (r: bv8)
    requires i < 8
    ensures GetBit(r, i) == v
  {
    if v then b | Mask(i) else b & !Mask(i)
  }

  /** Setting one bit leaves the others alone. */
  lemma SetBitOther(b: bv8, i: nat, v: bool, j: nat)
    requires i < 8 && j < 8 && i != j
    ensures GetBit(SetBit(b, i, v), j) == GetBit(b, j)
  {
  }

  /** The first p bits of a byte string, LSB-first within each byte. */
  function PendingBits(b: seq<bv8>, p: nat): (r: seq<bool>)
    requires p <= 8 * |b|
    ensures |r| == p
  {
    if p == 0 then [] else PendingBits(b, p - 1) + [GetBit(b[(p - 1) / 8], (p - 1) % 8)]
  }

  /** All bits of a byte string, LSB-first within each byte. */
  function BitsOf(b: seq<bv8>): (r: seq<bool>)
    ensures |r| == 8 * |b|
  {
    PendingBits(b, 8 * |b|)
  }

  /** Bit i of the stream is bit i % 8 of byte i / 8. */
  lemma {:induction false} PendingAt(b: seq<bv8>, p: nat, i: nat)
    requires i < p <= 8 * |b|
    ensures PendingBits(b, p)[i] == GetBit(b[i / 8], i % 8)
    decreases p
  {
    if i < p - 1 {
      PendingAt(b, p - 1, i);
    }
  }

  /** The first p bits depend only on the bytes that hold them. */
  lemma {:induction false} PendingSame(b: seq<bv8>, b': seq<bv8>, p: nat)
    requires p <= 8 * |b| && p <= 8 * |b'|
    requires forall i :: 0 <= i < p ==> GetBit(b[i / 8], i % 8) == GetBit(b'[i / 8], i % 8)
    ensures PendingBits(b, p) == PendingBits(b', p)
    decreases p
  {
    if p > 0 {
      PendingSame(b, b', p - 1);
    }
  }

  lemma DivShift(i: nat, n: nat)
    ensures (i + 8 * n) / 8 == i / 8 + n && (i + 8 * n) % 8 == i % 8
  {
  }

  /** Writing bytes one string after another writes their bits in order. */
  lemma BitsOfConcat(a: seq<bv8>, b: seq<bv8>)
    ensures BitsOf(a + b) == BitsOf(a) + BitsOf(b)
  {
    var l := BitsOf(a + b);
    var r := BitsOf(a) + BitsOf(b);
    forall i | 0 <= i < |l| ensures l[i] == r[i] {
      PendingAt(a + b, 8 * |a + b|, i);
      if i >= 8 * |a| {
        DivShift(i - 8 * |a|, |a|);
        PendingAt(b, 8 * |b|, i - 8 * |a|);
      } else {
        PendingAt(a, 8 * |a|, i);
      }
    }
  }

  /** Extending a partial byte string by one bit. */
  lemma PendingSet(b: seq<bv8>, p: nat, v: bool)
    requires p < 8 * |b|
    ensures PendingBits(b[p / 8 := SetBit(b[p / 8], p % 8, v)], p + 1) == PendingBits(b, p) + [v]
  {
    var b' := b[p / 8 := SetBit(b[p / 8], p % 8, v)];
    forall i | 0 <= i < p ensures GetBit(b[i / 8], i % 8) == GetBit(b'[i / 8], i % 8) {
      if i / 8 == p / 8 {
        SetBitOther(b[p / 8], p % 8, v, i % 8);
      }
    }
    PendingSame(b, b', p);
  }

  /** The buffer b with bit p set to v. */
  function Stored(b: seq<bv8>, p: nat, v: bool): (r: seq<bv8>)
    requires p < 8 * |b|
    ensures |r| == |b|
  {
    b[p / 8 := SetBit(b[p / 8], p % 8, v)]
  }

  /** One bit more on a writer whose file holds o and whose buffer holds
      the first p bits of b: the stream grows by that bit. */
  lemma BitAppended(o: seq<bv8>, b: seq<bv8>, p: nat, v: bool, s: seq<bool>)
    requires p < 8 * |b| && s == BitsOf(o) + PendingBits(b, p)
    ensures s + [v] == BitsOf(o) + PendingBits(Stored(b, p, v), p + 1)
  {
    PendingSet(b, p, v);
    Seqs.Assoc(BitsOf(o), PendingBits(b, p), [v]);
  }

  /** The first p bits lie within the first p / 8 + 1 bytes. */
  lemma PendingPrefix(b: seq<bv8>, p: nat)
    requires p < 8 * |b|
    ensures p / 8 + 1 <= |b|
    ensures BitsOf(b[..p / 8 + 1])[..p] == PendingBits(b, p)
  {
    var k := p / 8 + 1;
    forall i | 0 <= i < p ensures GetBit(b[i / 8], i % 8) == GetBit(b[..k][i / 8], i % 8) {
    }
    PendingSame(b, b[..k], p);
    PendingPrefixes(b[..k], p, 8 * k);
  }

  /** Fewer bits of a byte string are a prefix of more. */
  lemma {:induction false} PendingPrefixes(b: seq<bv8>, p: nat, q: nat)
    requires p <= q <= 8 * |b|
    ensures PendingBits(b, q)[..p] == PendingBits(b, p)
    decreases q
  {
    if p < q {
      PendingPrefixes(b, p, q - 1);
      assert PendingBits(b, q)[..q - 1] == PendingBits(b, q - 1);
    }
  }

  /** Code bits 0 .. i - 1 followed by bit i. */
  lemma BitsAt(s0: seq<bool>, c: Code, i: nat)
    requires Wf(c) && i < c.l
    ensures s0 + Bits(c)[..i + 1] == s0 + Bits(c)[..i] + [c.bits[i / 8] & Mask(i % 8) != 0]
  {
    PendingAt(c.bits, c.l, i);
    assert Bits(c)[..i + 1] == Bits(c)[..i] + [Bits(c)[i]];
  }

  /** A code: `l` bits stored in the bytes `bits`. */
  datatype Code = Code(bits: seq<bv8>, l: nat)

  /** CODE, the number of bits a code can hold. */
  function Capacity(c: Code): nat
  {
    8 * |c.bits|
  }

  /** The code struct's invariant: pushCode never goes past CODE bits. */
  ghost predicate Wf(c: Code)
  {
    c.l <= Capacity(c)
  }

  /** Bit i of a code. */
  function Bit(c: Code, i: nat): bool
    requires i < Capacity(c)
  {
    GetBit(c.bits[i / 8], i % 8)
  }

  /** The bits of a code, in push order. */
  function Bits(c: Code): (r: seq<bool>)
    requires Wf(c)
    ensures |r| == c.l
  {
    PendingBits(c.bits, c.l)
  }

  /** newCode (code.h:17-24): every byte cleared and length 0, for a code of
      `width` (CODE / 8) bytes. */
  function NewCode(width: nat): (r: Code)
    ensures Wf(r) && Capacity(r) == 8 * width && Bits(r) == []
    ensures forall i :: 0 <= i < Capacity(r) ==> !Bit(r, i)
  {
    Code(seq(width, _ => 0), 0)
  }

  /** pushCode (code.h:26-37): fails at capacity, otherwise stores `k != 0`
      as bit l and increments l. */
  function PushCode(c: Code, k: nat): (r: (bool, Code))
    requires Wf(c)
    ensures Wf(r.1) && |r.1.bits| == |c.bits|
    ensures r.0 <==> c.l < Capacity(c)
    ensures !r.0 ==> r.1 == c
    ensures r.0 ==> r.1.l == c.l + 1 && Bits(r.1) == Bits(c) + [k != 0]
  {
    if c.l == Capacity(c) then (false, c)
    else
      var byte := c.bits[c.l / 8];
      var r := Code(c.bits[c.l / 8 := SetBit(byte, c.l % 8, k != 0)], c.l + 1);
      PendingSet(c.bits, c.l, k != 0);
      (true, r)
  }

  /** popCode (code.h:39-47): fails at length 0 and leaves k as it was,
      otherwise decrements l and gives the bit at the new l as 0 or 1. */
  function PopCode(c: Code, k: nat): (r: (bool, nat, Code))
    requires Wf(c)
    ensures Wf(r.2) && |r.2.bits| == |c.bits|
    ensures r.0 <==> c.l > 0
    ensures !r.0 ==> r.1 == k && r.2 == c
    ensures r.0 ==> r.2 == Code(c.bits, c.l - 1)
    ensures r.0 ==> r.1 == (if Bit(c, c.l - 1) then 1 else 0)
    ensures r.0 ==> Bits(r.2) + [Bit(c, c.l - 1)] == Bits(c)
  {
    if c.l == 0 then (false, k, c)
    else
      var l := c.l - 1;
      var bit := if Mask(l % 8) & c.bits[l / 8] != 0 then 1 else 0;
      (true, bit, Code(c.bits, l))
  }

  /** emptyCode (code.h:49-51) */
  predicate EmptyCode(c: Code)
    requires Wf(c)
    ensures EmptyCode(c) <==> Bits(c) == []
  {
    c.l == 0
  }

  /** fullCode (code.h:53-55): no further bit can be pushed. */
  predicate FullCode(c: Code)
    requires Wf(c)
    ensures FullCode(c) <==> |Bits(c)| == Capacity(c)
    ensures FullCode(c) <==> !PushCode(c, 0).0 && !PushCode(c, 1).0
  {
    c.l == Capacity(c)
  }

  /** Pushing k and popping again gives back `k != 0` as 0 or 1 and the
      code's length and bits. */
  lemma PushThenPop(c: Code, k: nat, k0: nat)
    requires Wf(c) && c.l < Capacity(c)
    ensures PopCode(PushCode(c, k).1, k0).0
    ensures PopCode(PushCode(c, k).1, k0).1 == if k != 0 then 1 else 0
    ensures PopCode(PushCode(c, k).1, k0).2.l == c.l
    ensures Bits(PopCode(PushCode(c, k).1, k0).2) == Bits(c)
  {
    var p := PushCode(c, k).1;
    var q := PopCode(p, k0);
    assert Bits(q.2) + [Bit(p, c.l)] == Bits(c) + [k != 0];
    assert Bits(q.2) == (Bits(q.2) + [Bit(p, c.l)])[..c.l];
  }

  /** The bit writer of code.h:57-93: the buffer codeB of KB bytes, the bit
      position codeP in it and the count codeC of code bits appended, with
      the bytes written to the file so far in `out`. */
  class BitWriter {
    var codeB: array<bv8>
    var codeP: nat
    var codeC: nat
    var out: seq<bv8>

    /** Every bit appended so far, in order. */
    ghost var stream: seq<bool>

    /** codeP stays inside the buffer, and the stream is the bits in the
        file followed by the first codeP bits of the buffer. */
    ghost predicate Valid()
      reads this, codeB
    {
      && 0 < codeB.Length && codeP < 8 * codeB.Length
      && stream == BitsOf(out) + PendingBits(codeB[..], codeP)
    }

    /** The static initial state: an empty buffer of kb bytes. */
    constructor (kb: nat)
      requires 0 < kb
      ensures Valid() && fresh(codeB) && codeB.Length == kb
      ensures codeP == 0 && codeC == 0 && out == [] && stream == []
    {
      codeB := new bv8[kb](_ => 0);
      codeP := 0;
      codeC := 0;
      out := [];
      stream := [];
    }

    /** appendCode (code.h:76-93): the bits of c go onto the stream in index
        order; each time the buffer fills, its KB bytes go to the file and
        codeP restarts at 0. */
    method AppendCode(c: Code)
      requires Valid() && Wf(c)
      modifies this, codeB
      ensures Valid() && codeB == old(codeB)
      ensures codeC == old(codeC) + c.l
      ensures stream == old(stream) + Bits(c)
      ensures old(out) <= out && Blocks(out[|old(out)|..], codeB.Length)
    {
      ghost var bits := Bits(c);
      ghost var s0 := stream;
      codeC := codeC + c.l;
      assert out[|out|..] == [];
      for i := 0 to c.l
        invariant Valid() && codeB == old(codeB) && codeC == old(codeC) + c.l
        invariant stream == s0 + bits[..i]
        invariant old(out) <= out && Blocks(out[|old(out)|..], codeB.Length)
      {
        BitsAt(s0, c, i);
        ghost var o := out;
        PutBit(c.bits[i / 8] & Mask(i % 8) != 0);
        BlocksGrow(old(out), o, out, codeB.Length);
      }
      assert bits[..c.l] == bits;
    }

    /** The body of appendCode's loop (code.h:81-91): store one bit at codeP,
        and write the whole buffer out when it fills. */
    method PutBit(v: bool)
      requires Valid()
      modifies this, codeB
      ensures Valid() && codeB == old(codeB) && codeC == old(codeC)
      ensures stream == old(stream) + [v]
      ensures old(out) <= out && (|out| == |old(out)| || |out| == |old(out)| + codeB.Length)
    {
      ghost var b := codeB[..];
      ghost var p := codeP;
      BitAppended(out, b, p, v, stream);
      StoreBit(v);
      Advance(v);
      if codeP == codeB.Length * 8 {
        WriteFull();
      }
    }

    /** The store of one bit at codeP (code.h:79-84). */
    method StoreBit(v: bool)
      requires 0 < codeB.Length && codeP < 8 * codeB.Length
      modifies codeB
      ensures codeB[..] == Stored(old(codeB[..]), codeP, v)
    {
      codeB[codeP / 8] := SetBit(codeB[codeP / 8], codeP % 8, v);
    }

    /** codeP moves past the stored bit (code.h:86), which joins the stream. */
    method Advance(v: bool)
      modifies this
      ensures codeP == old(codeP) + 1 && stream == old(stream) + [v]
      ensures codeB == old(codeB) && codeC == old(codeC) && out == old(out)
    {
      codeP := codeP + 1;
      stream := stream + [v];
    }

    /** appendCode's write of a full buffer (code.h:87-90): all of it goes
        to the file and codeP starts again at 0. */
    method WriteFull()
      requires 0 < codeB.Length && codeP == 8 * codeB.Length
      requires stream == BitsOf(out) + PendingBits(codeB[..], codeP)
      modifies this
      ensures Valid() && codeB == old(codeB) && codeC == old(codeC) && stream == old(stream)
      ensures out == old(out) + codeB[..]
    {
      BitsOfConcat(out, codeB[..]);
      out := out + codeB[..];
      codeP := 0;
    }

    /** flushCode (code.h:67-70): write codeP / 8 + 1 bytes of the buffer,
        one more than needed when codeP is a multiple of 8, so the file
        holds every appended bit followed by the buffer's stale ones.
        codeP is left as it is. */
    method FlushCode()
      requires Valid()
      modifies this
      ensures codeB == old(codeB) && codeP == old(codeP) && codeC == old(codeC)
      ensures stream == old(stream)
      ensures out == old(out) + codeB[..codeP / 8 + 1]
      ensures |out| == |old(out)| + codeP / 8 + 1
      ensures BitsOf(out)[..|stream|] == stream
      ensures |stream| < 8 * |out| <= |stream| + 8
    {
      PendingPrefix(codeB[..], codeP);
      BitsOfConcat(out, codeB[..codeP / 8 + 1]);
      assert codeB[..][..codeP / 8 + 1] == codeB[..codeP / 8 + 1];
      out := out + codeB[..codeP / 8 + 1];
    }
  }
}
