/** The tree builder of encode.c: freqCnt tallies a histogram of the input
    bytes (encode.c:44-61); buildTree (encode.c:85-143) adds stand-in
    symbols so that there are at least two leaves, enqueues one leaf per
    symbol in symbol order, writes the header, and merges the two least
    entries until one tree remains. */
module TreeBuild {
  import opened Huffman
  import opened Priority
  import opened Wrappers
  import opened Bytes
  import opened Endian
  import opened HeaderFormat
  import opened BlockWrite
  import Seqs

  /** BYTE, the number of byte values. */
  const BYTE: nat := 256

  /** The byte whose value is k. */
  function ByteOf(k: nat): bv8
    requires k < BYTE
  {
    k as bv8
  }

  lemma ByteOfValue(k: nat)
    requires k < BYTE
    ensures ByteOf(k) as int == k
  {
    ByteValue(k);
  }

  /** Occurrences of the byte with value k in s. */
  function Occ(s: seq<bv8>, k: int): (n: nat)
    ensures n <= |s|
  {
    if s == [] then 0 else Occ(s[..|s| - 1], k) + (if s[|s| - 1] as int == k then 1 else 0)
  }

  /** Every byte of s occurs in s. */
  lemma {:induction false} OccPositive(s: seq<bv8>, i: nat)
    requires i < |s|
    ensures Occ(s, s[i] as int) > 0
    decreases |s|
  {
    if i < |s| - 1 {
      OccPositive(s[..|s| - 1], i);
    }
  }

  /** The histogram of a file. */
  function Histogram(s: seq<bv8>): (h: seq<nat>)
    ensures |h| == BYTE
  {
    seq(BYTE, k requires 0 <= k < BYTE => Occ(s, k))
  }

  /** Number of nonzero histogram entries. */
  function NonZero(h: seq<nat>): nat
  {
    if h == [] then 0 else NonZero(h[..|h| - 1]) + (if h[|h| - 1] > 0 then 1 else 0)
  }

  lemma {:induction false} NonZeroBound(h: seq<nat>)
    ensures NonZero(h) <= |h|
  {
    if h != [] {
      NonZeroBound(h[..|h| - 1]);
    }
  }

  /** Changing one entry changes the count by that entry alone. */
  lemma {:induction false} NonZeroSet(h: seq<nat>, k: nat, v: nat)
    requires k < |h|
    ensures NonZero(h[k := v]) + (if h[k] > 0 then 1 else 0) == NonZero(h) + (if v > 0 then 1 else 0)
    decreases |h|
  {
    var n := |h| - 1;
    if k == n {
      assert h[k := v][..n] == h[..n];
    } else {
      NonZeroSet(h[..n], k, v);
      assert h[k := v][..n] == h[..n][k := v];
    }
  }

  /** An entry that is nonzero is counted. */
  lemma NonZeroAtLeast(h: seq<nat>, k: nat)
    requires k < |h| && h[k] > 0
    ensures NonZero(h) >= 1
  {
    NonZeroSet(h, k, 0);
  }

  /** uint8 increment. */
  lemma WrapInc(u: bv8)
    ensures (u + 1) as int == (u as int + 1) % 256
  {
    if u == 255 {
      assert u + 1 == 0;
    } else {
      assert (u + 1) as int == u as int + 1;
    }
  }

  /** freqCnt (encode.c:44-61): add each byte's occurrences to hist, and
      count in a uint8 the entries that go from zero to nonzero.  The file
      is read KB bytes at a time; here it is the whole sequence. */
  method FreqCnt(input: seq<bv8>, hist: array<nat>) returns (unique: bv8)
    requires hist.Length == BYTE
    modifies hist
    ensures forall k :: 0 <= k < BYTE ==> hist[k] == old(hist[k]) + Occ(input, k)
    ensures NonZero(old(hist[..])) <= NonZero(hist[..])
    ensures unique as int == (NonZero(hist[..]) - NonZero(old(hist[..]))) % 256
  {
    ghost var h0 := hist[..];
    unique := 0;
    for i := 0 to |input|
      invariant forall k :: 0 <= k < BYTE ==> hist[k] == h0[k] + Occ(input[..i], k)
      invariant NonZero(h0) <= NonZero(hist[..])
      invariant unique as int == (NonZero(hist[..]) - NonZero(h0)) % 256
    {
      ghost var before := hist[..];
      unique := CountByte(hist, input[i], unique, h0);
      Seqs.TakeOne(input, i);
    }
    assert input[..|input|] == input;
  }

  /** One pass of freqCnt's inner loop (encode.c:50-56): count x. */
  method CountByte(hist: array<nat>, x: bv8, unique: bv8, ghost h0: seq<nat>) returns (u: bv8)
    requires hist.Length == BYTE && NonZero(h0) <= NonZero(hist[..])
    requires unique as int == (NonZero(hist[..]) - NonZero(h0)) % 256
    modifies hist
    ensures hist[..] == old(hist[..])[x as int := old(hist[x]) + 1]
    ensures NonZero(h0) <= NonZero(hist[..])
    ensures u as int == (NonZero(hist[..]) - NonZero(h0)) % 256
  {
    ghost var before := hist[..];
    CountStep(h0, before, x as int, unique);
    u := if hist[x] == 0 then unique + 1 else unique;
    hist[x] := hist[x] + 1;
    assert hist[..] == before[x as int := before[x] + 1];
  }

  /** One step of freqCnt's count: the uint8 counter goes up, wrapping,
      exactly when an entry goes from zero to one. */
  lemma CountStep(h0: seq<nat>, before: seq<nat>, x: nat, u: bv8)
    requires x < |before| && NonZero(h0) <= NonZero(before)
    requires u as int == (NonZero(before) - NonZero(h0)) % 256
    ensures NonZero(h0) <= NonZero(before[x := before[x] + 1])
    ensures (if before[x] == 0 then u + 1 else u) as int
            == (NonZero(before[x := before[x] + 1]) - NonZero(h0)) % 256
  {
    NonZeroSet(before, x, before[x] + 1);
    if before[x] == 0 {
      WrapInc(u);
      ModNext(NonZero(before) - NonZero(h0));
    }
  }

  /** Counting on by one modulo 256. */
  lemma ModNext(d: nat)
    ensures (d % 256 + 1) % 256 == (d + 1) % 256
  {
  }

  /** The stand-ins of buildTree (encode.c:96-107): with no symbol, 0x00
      and 0xFF; with one, 0x00 unless that is the symbol, then 0xFF. */
  function StandIns(h: seq<nat>, unique: bv8): (r: seq<nat>)
    requires |h| == BYTE
    ensures |r| == BYTE
  {
    if unique == 0 then h[0 := h[0] + 1][255 := h[255] + 1]
    else if unique == 1 then
      if h[0] == 0 then h[0 := h[0] + 1] else h[255 := h[255] + 1]
    else h
  }

  /** Two nonzero entries are both counted. */
  lemma NonZeroTwo(h: seq<nat>, i: nat, j: nat)
    requires i < |h| && j < |h| && i != j && h[i] > 0 && h[j] > 0
    ensures NonZero(h) >= 2
  {
    NonZeroSet(h, i, 0);
    NonZeroAtLeast(h[i := 0], j);
  }

  /** An entry that is counted. */
  lemma {:induction false} NonZeroWitness(h: seq<nat>) returns (k: nat)
    requires NonZero(h) > 0
    ensures k < |h| && h[k] > 0
  {
    var n := |h| - 1;
    if h[n] > 0 {
      k := n;
    } else {
      k := NonZeroWitness(h[..n]);
    }
  }

  /** When unique is the count of nonzero entries in a uint8, at least two
      entries are nonzero afterwards, even with all 256 symbols present
      (unique == 0).  Only the stand-in entries change, each by one. */
  lemma StandInsTwo(h: seq<nat>, unique: bv8)
    requires |h| == BYTE && unique as int == NonZero(h) % 256
    ensures NonZero(StandIns(h, unique)) >= 2
    ensures forall k :: 0 <= k < BYTE && k != 0 && k != 255 ==> StandIns(h, unique)[k] == h[k]
    ensures forall k :: 0 <= k < BYTE ==> h[k] <= StandIns(h, unique)[k] <= h[k] + 1
  {
    var r := StandIns(h, unique);
    NonZeroBound(h);
    if unique == 0 {
      NonZeroTwo(r, 0, 255);
    } else if unique == 1 {
      if h[0] == 0 {
        var k := NonZeroWitness(h);
        NonZeroTwo(r, 0, k);
      } else {
        NonZeroTwo(r, 0, 255);
      }
    }
  }

  /** The stand-ins applied to buildTree's histogram. */
  method AddStandIns(hist: array<nat>, unique: bv8)
    requires hist.Length == BYTE
    modifies hist
    ensures hist[..] == StandIns(old(hist[..]), unique)
  {
    if unique == 0 {
      hist[0x00] := hist[0x00] + 1;
      hist[0xFF] := hist[0xFF] + 1;
    } else if unique == 1 {
      if hist[0x00] == 0 {
        hist[0x00] := hist[0x00] + 1;
      } else {
        hist[0xFF] := hist[0xFF] + 1;
      }
    }
  }

  /** The leaves buildTree enqueues for the first n symbols, in symbol
      order: every symbol, or only those with a nonzero count. */
  function Selected(h: seq<nat>, full: bool, n: nat): (r: seq<Tree>)
    requires n <= |h| <= BYTE
    ensures |r| <= n
  {
    if n == 0 then []
    else Selected(h, full, n - 1) + (if full || h[n - 1] > 0 then [Leaf(ByteOf(n - 1), h[n - 1])] else [])
  }

  /** The leaves are the selected symbols, each exactly once. */
  lemma {:induction false} SelectedSyms(h: seq<nat>, full: bool, n: nat, x: int)
    requires n <= |h| <= BYTE
    ensures ForestSyms(Selected(h, full, n))[x] == if 0 <= x < n && (full || h[x] > 0) then 1 else 0
  {
    if n > 0 {
      SelectedSyms(h, full, n - 1, x);
      var s := Selected(h, full, n - 1);
      var tail := if full || h[n - 1] > 0 then [Leaf(ByteOf(n - 1), h[n - 1])] else [];
      ForestConcat(s, tail);
      var m := ForestSyms(tail);
      if tail != [] {
        ForestOne(tail[0]);
        Seqs.Single(tail);
        ByteOfValue(n - 1);
        assert m == multiset{n - 1};
      } else {
        assert m == multiset{};
      }
      assert m[x] == if x == n - 1 && (full || h[n - 1] > 0) then 1 else 0;
      assert ForestSyms(Selected(h, full, n)) == ForestSyms(s) + m;
    }
  }

  /** Each of xs enqueued in turn into a queue holding C. */
  function InsertAll(C: seq<Tree>, xs: seq<Tree>): (r: seq<Tree>)
    ensures |r| == |C| + |xs|
  {
    if xs == [] then C else Insert(InsertAll(C, xs[..|xs| - 1]), xs[|xs| - 1])
  }

  lemma {:induction false} InsertAllSorted(C: seq<Tree>, xs: seq<Tree>)
    requires Sorted(C)
    ensures Sorted(InsertAll(C, xs))
    decreases |xs|
  {
    if xs != [] {
      InsertAllSorted(C, xs[..|xs| - 1]);
      InsertSorted(InsertAll(C, xs[..|xs| - 1]), xs[|xs| - 1]);
    }
  }

  lemma {:induction false} InsertAllForest(C: seq<Tree>, xs: seq<Tree>)
    ensures ForestLeaves(InsertAll(C, xs)) == ForestLeaves(C) + ForestLeaves(xs)
    ensures ForestSyms(InsertAll(C, xs)) == ForestSyms(C) + ForestSyms(xs)
    ensures ForestWeight(InsertAll(C, xs)) == ForestWeight(C) + ForestWeight(xs)
    decreases |xs|
  {
    if xs != [] {
      var init := xs[..|xs| - 1];
      var x := xs[|xs| - 1];
      InsertAllForest(C, init);
      ForestInsert(InsertAll(C, init), x);
      Seqs.InitLast(xs);
      Seqs.UnionAssoc(ForestLeaves(C), ForestLeaves(init), Leaves(x));
      Seqs.UnionAssoc(ForestSyms(C), ForestSyms(init), Syms(x));
    }
  }

  /** enqueue's loop of buildTree (encode.c:111-116): one leaf per selected
      symbol, in increasing symbol order, counted in `leaves`.  A queue of
      BYTE + 1 slots holds all 256, so no enqueue fails. */
  method EnqueueLeaves(q: Queue, hist: array<nat>, full: bool) returns (leaves: nat)
    requires q.Valid() && q.size == BYTE + 1 && q.Contents == [] && hist.Length == BYTE
    modifies q, q.Q
    ensures q.Valid() && q.Q == old(q.Q) && q.size == old(q.size)
    ensures q.Contents == InsertAll([], Selected(hist[..], full, BYTE))
    ensures leaves == |Selected(hist[..], full, BYTE)| <= BYTE
  {
    leaves := 0;
    ghost var h := hist[..];
    for i := 0 to BYTE
      invariant q.Valid() && q.Q == old(q.Q) && q.size == BYTE + 1
      invariant q.Contents == InsertAll([], Selected(h, full, i))
      invariant leaves == |Selected(h, full, i)| <= i
    {
      SelectedNext(h, full, i);
      if full || hist[i] > 0 {
        var x := Leaf(ByteOf(i), hist[i]);
        var ok := q.Enqueue(x);
        leaves := leaves + 1;
      }
    }
  }

  /** One more symbol selects one more leaf, or none, and enqueues it. */
  lemma SelectedNext(h: seq<nat>, full: bool, i: nat)
    requires i < |h| <= BYTE
    ensures var xs := Selected(h, full, i);
      if full || h[i] > 0 then
        Selected(h, full, i + 1) == xs + [Leaf(ByteOf(i), h[i])]
        && InsertAll([], Selected(h, full, i + 1)) == Insert(InsertAll([], xs), Leaf(ByteOf(i), h[i]))
      else Selected(h, full, i + 1) == xs
  {
    var xs := Selected(h, full, i);
    if full || h[i] > 0 {
      Seqs.AppendInit(xs, Leaf(ByteOf(i), h[i]));
    } else {
      assert xs + [] == xs;
    }
  }

  /** Leaves, symbols and weight of a sequence of trees. */
  function ForestLeaves(C: seq<Tree>): multiset<Tree>
  {
    if C == [] then multiset{} else ForestLeaves(C[..|C| - 1]) + Leaves(C[|C| - 1])
  }

  function ForestSyms(C: seq<Tree>): multiset<int>
  {
    if C == [] then multiset{} else ForestSyms(C[..|C| - 1]) + Syms(C[|C| - 1])
  }

  function ForestWeight(C: seq<Tree>): nat
  {
    if C == [] then 0 else ForestWeight(C[..|C| - 1]) + C[|C| - 1].count
  }

  lemma {:induction false} ForestConcat(a: seq<Tree>, b: seq<Tree>)
    ensures ForestLeaves(a + b) == ForestLeaves(a) + ForestLeaves(b)
    ensures ForestSyms(a + b) == ForestSyms(a) + ForestSyms(b)
    ensures ForestWeight(a + b) == ForestWeight(a) + ForestWeight(b)
    decreases |b|
  {
    if b == [] {
      assert a + b == a;
    } else {
      var init := b[..|b| - 1];
      ForestConcat(a, init);
      Seqs.ConcatInit(a, b);
    }
  }

  /** The forest of a single tree. */
  lemma ForestOne(x: Tree)
    ensures ForestLeaves([x]) == Leaves(x) && ForestSyms([x]) == Syms(x)
    ensures ForestWeight([x]) == x.count
  {
    Seqs.AppendInit([], x);
  }

  /** enqueue adds one tree to the forest. */
  lemma ForestInsert(C: seq<Tree>, x: Tree)
    ensures ForestLeaves(Insert(C, x)) == ForestLeaves(C) + Leaves(x)
    ensures ForestSyms(Insert(C, x)) == ForestSyms(C) + Syms(x)
    ensures ForestWeight(Insert(C, x)) == ForestWeight(C) + x.count
  {
    InsertAt(C, x);
    var j := InsertPos(C, x);
    var a, b := C[..j], C[j..];
    assert C == a + b;
    ForestConcat(a, b);
    ForestConcat(a, [x]);
    ForestConcat(a + [x], b);
    ForestOne(x);
    assert Insert(C, x) == a + [x] + b;
    Seqs.UnionSwap(ForestLeaves(a), Leaves(x), ForestLeaves(b));
    Seqs.UnionSwap(ForestSyms(a), Syms(x), ForestSyms(b));
  }

  /** The merge loop of buildTree (encode.c:128-142) on the queue's
      contents: join the two least entries and enqueue the result until one
      tree is left; an empty queue gives no tree. */
  function Merge(C: seq<Tree>): (r: Option<Tree>)
    ensures r.Some? <==> C != []
    decreases |C|
  {
    if C == [] then None
    else if |C| == 1 then Some(C[0])
    else Merge(Insert(C[2..], Join(C[0], C[1])))
  }

  /** The merged tree holds exactly the queue's leaves, symbols and weight,
      and is an internal node when there were at least two entries. */
  lemma {:induction false} MergeForest(C: seq<Tree>)
    ensures Merge(C).Some? <==> C != []
    ensures |C| >= 2 ==> Merge(C).value.Node?
    ensures C != [] ==> Leaves(Merge(C).value) == ForestLeaves(C)
    ensures C != [] ==> Syms(Merge(C).value) == ForestSyms(C)
    ensures C != [] ==> Merge(C).value.count == ForestWeight(C)
    decreases |C|
  {
    if |C| == 1 {
      ForestOne(C[0]);
      Seqs.Single(C);
    } else if |C| >= 2 {
      var j := Join(C[0], C[1]);
      var rest := Insert(C[2..], j);
      MergeForest(rest);
      ForestInsert(C[2..], j);
      ForestPair(C[0], C[1]);
      Seqs.FirstTwo(C);
      ForestConcat([C[0], C[1]], C[2..]);
      Seqs.UnionComm(ForestLeaves(C[2..]), Leaves(j));
      Seqs.UnionComm(ForestSyms(C[2..]), Syms(j));
      if |C| == 2 {
        Seqs.Single(rest);
      }
    }
  }

  /** The forest of two trees is that of their join. */
  lemma ForestPair(x: Tree, y: Tree)
    ensures ForestLeaves([x, y]) == Leaves(Join(x, y))
    ensures ForestSyms([x, y]) == Syms(Join(x, y))
    ensures ForestWeight([x, y]) == Join(x, y).count
  {
    ForestOne(x);
    Seqs.AppendInit([x], y);
  }

  /** buildTree's merge loop on the queue itself. */
  method MergeQueue(q: Queue) returns (t: Option<Tree>)
    requires q.Valid()
    modifies q, q.Q
    ensures q.Valid() && q.Contents == [] && t == Merge(old(q.Contents))
  {
    ghost var C0 := q.Contents;
    t := None;
    while !q.IsEmpty()
      invariant q.Valid() && q.Q == old(q.Q)
      invariant t.None? ==> Merge(q.Contents) == Merge(C0)
      invariant t.Some? ==> q.Contents == [] && t == Merge(C0)
      decreases |q.Contents|
    {
      ghost var C := q.Contents;
      var l := q.Dequeue();
      if !q.IsEmpty() {
        var r := q.Dequeue();
        assert q.Contents == C[2..];
        var ok := q.Enqueue(Join(l.value, r.value));
      } else {
        t := l;
      }
    }
  }

  /** The unique count freqCnt returns for a file. */
  function Unique(input: seq<bv8>): bv8
  {
    (NonZero(Histogram(input)) % 256) as bv8
  }

  /** The leaves buildTree enqueues for a file. */
  function LeafSet(input: seq<bv8>, full: bool): seq<Tree>
  {
    Selected(StandIns(Histogram(input), Unique(input)), full, BYTE)
  }

  /** The tree buildTree returns for a file. */
  function BuiltTree(input: seq<bv8>, full: bool): Option<Tree>
  {
    Merge(InsertAll([], LeafSet(input, full)))
  }

  /** The size of the saved tree (encode.c:124). */
  function TreeBytes(leaves: nat): nat
  {
    if leaves > 0 then 3 * leaves - 1 else 0
  }

  /** Unique(input) is the count of distinct bytes modulo 256. */
  lemma UniqueValue(input: seq<bv8>)
    ensures Unique(input) as int == NonZero(Histogram(input)) % 256
  {
    ByteValue(NonZero(Histogram(input)) % 256);
  }

  /** The enqueued leaves: at least two, at most one per symbol, one for
      every byte of the file, and one symbol per leaf. */
  lemma LeafSetShape(input: seq<bv8>, full: bool)
    ensures 2 <= |LeafSet(input, full)| <= BYTE
    ensures NoDup(ForestSyms(LeafSet(input, full)))
    ensures forall k :: 0 <= k < BYTE && Occ(input, k) > 0 ==> k in ForestSyms(LeafSet(input, full))
    ensures |ForestSyms(LeafSet(input, full))| == |LeafSet(input, full)|
  {
    var h := Histogram(input);
    UniqueValue(input);
    StandInsTwo(h, Unique(input));
    var hs := StandIns(h, Unique(input));
    var xs := LeafSet(input, full);
    forall x ensures ForestSyms(xs)[x] <= 1 {
      SelectedSyms(hs, full, BYTE, x);
    }
    SelectedAtLeast(hs, full, BYTE);
    Seqs.TakeAll(hs);
    forall k | 0 <= k < BYTE && Occ(input, k) > 0 ensures k in ForestSyms(xs) {
      assert hs[k] >= h[k] == Occ(input, k);
      SelectedSyms(hs, full, BYTE, k);
    }
    SelectedSize(hs, full, BYTE);
  }

  /** The built tree is an internal node whose leaves are the enqueued
      leaves, one per symbol of the file at least, with distinct symbols. */
  lemma BuiltTreeShape(input: seq<bv8>, full: bool)
    ensures BuiltTree(input, full).Some? && BuiltTree(input, full).value.Node?
    ensures UniqueSymbols(BuiltTree(input, full).value)
    ensures Leaves(BuiltTree(input, full).value) == ForestLeaves(LeafSet(input, full))
    ensures forall k :: 0 <= k < BYTE && Occ(input, k) > 0 ==> k in Syms(BuiltTree(input, full).value)
    ensures 2 <= LeafCount(BuiltTree(input, full).value) <= BYTE
    ensures LeafCount(BuiltTree(input, full).value) == |LeafSet(input, full)|
  {
    var xs := LeafSet(input, full);
    LeafSetShape(input, full);
    InsertAllForest([], xs);
    assert ForestLeaves([]) == multiset{} && ForestSyms([]) == multiset{};
    var C := InsertAll([], xs);
    MergeForest(C);
    var t := Merge(C).value;
    assert Syms(t) == ForestSyms(xs);
    NoDupUnique(t);
    FullBinary(t);
  }

  /** At least as many leaves as nonzero entries. */
  lemma {:induction false} SelectedAtLeast(h: seq<nat>, full: bool, n: nat)
    requires n <= |h| <= BYTE
    ensures |Selected(h, full, n)| >= NonZero(h[..n])
  {
    if n > 0 {
      SelectedAtLeast(h, full, n - 1);
      assert h[..n][..n - 1] == h[..n - 1];
    }
  }

  /** The leaf multiset has one symbol per leaf. */
  lemma {:induction false} SelectedSize(h: seq<nat>, full: bool, n: nat)
    requires n <= |h| <= BYTE
    ensures |ForestSyms(Selected(h, full, n))| == |Selected(h, full, n)|
  {
    if n > 0 {
      SelectedSize(h, full, n - 1);
      var s := Selected(h, full, n - 1);
      var tail := if full || h[n - 1] > 0 then [Leaf(ByteOf(n - 1), h[n - 1])] else [];
      ForestConcat(s, tail);
      if tail != [] {
        ForestOne(tail[0]);
        Seqs.Single(tail);
      }
    }
  }

  /** The first part of buildTree (encode.c:88-116): count the bytes, add
      the stand-ins and enqueue the leaves into a fresh queue. */
  method QueueLeaves(input: seq<bv8>, full: bool) returns (q: Queue, leaves: nat)
    ensures fresh(q) && fresh(q.Q) && q.Valid()
    ensures q.Contents == InsertAll([], LeafSet(input, full))
    ensures leaves == |LeafSet(input, full)|
  {
    var hist := new nat[BYTE](_ => 0);
    assert hist[..] == seq(BYTE, _ => 0);
    var unique := FreqCnt(input, hist);
    assert hist[..] == Histogram(input);
    ZeroNonZero(BYTE);
    UniqueValue(input);
    assert unique == Unique(input);
    AddStandIns(hist, unique);
    q := new Queue(BYTE + 1);
    leaves := EnqueueLeaves(q, hist, full);
  }

  /** buildTree (encode.c:85-143) on the file `input`, with `full` for the
      full-tree option.  The header h gets the tree size, through the host's
      conditional swap, and is written to the block writer and flushed. */
  method BuildTree(input: seq<bv8>, full: bool, h: Header, big: bool, w: BlockWriter)
    returns (t: Option<Tree>, leaves: nat, treeBytes: nat, hdr: Header)
    requires w.Valid()
    modifies w, w.buffer
    ensures w.Valid() && w.buffer == old(w.buffer)
    ensures t == BuiltTree(input, full)
    ensures leaves == |LeafSet(input, full)| <= BYTE && treeBytes == TreeBytes(leaves)
    ensures hdr == h.(treeSize := Canonical16(Word16(treeBytes), big))
    ensures w.data == old(w.data) + Image(hdr, big) && w.out == w.data
  {
    var q;
    q, leaves := QueueLeaves(input, full);
    treeBytes := if leaves > 0 then 3 * leaves - 1 else 0;
    hdr := h.(treeSize := if big then Swap16(Word16(treeBytes)) else Word16(treeBytes));
    var ok := w.BufferedWrite(Image(hdr, big), true);
    t := MergeQueue(q);
  }

  lemma {:induction false} ZeroNonZero(n: nat)
    ensures NonZero(seq(n, _ => 0)) == 0
  {
    if n > 0 {
      ZeroNonZero(n - 1);
      assert seq(n, _ => 0)[..n - 1] == seq(n - 1, _ => 0);
    }
  }
}
