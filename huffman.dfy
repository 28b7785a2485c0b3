/** Tree nodes (huffman.h, huffman.c).  A `treeNode` is either a leaf,
    made by newNode(s, true, c) with two NULL children, or an interior node
    made by join; the datatype below has exactly these two shapes, so every
    interior node has two children by construction. */
module Huffman {

  const TWO31: int := 0x8000_0000
  const TWO32: int := 0x1_0000_0000
  const TWO64: int := 0x1_0000_0000_0000_0000

  datatype Tree =
    | Leaf(symbol: bv8, count: nat)
    | Node(count: nat, left: Tree, right: Tree)

  /** join(l, r): an interior node over l (left) and r (right) whose count
      is the sum of theirs (huffman.c:24-29). */
  function Join(l: Tree, r: Tree): (n: Tree)
    ensures n.Node? && n.left == l && n.right == r
    ensures n.count == l.count + r.count
  {
    Node(l.count + r.count, l, r)
  }

  /** compare as written (huffman.h:38-40): the uint64 difference of the
      counts, wrapped modulo 2^64, then cast to a 32-bit int, which keeps
      its low 32 bits as a two's-complement value. */
  function Compare(l: Tree, r: Tree): (c: int)
    ensures -TWO31 <= c < TWO31
  {
    var diff := (l.count - r.count) % TWO64;
    var low := diff % TWO32;
    if low < TWO31 then low else low - TWO32
  }

  /** The comparison compare is meant to be: the sign of the difference of
      the counts. */
  function CompareCounts(l: Tree, r: Tree): (c: int)
    ensures c > 0 <==> l.count > r.count
    ensures c == 0 <==> l.count == r.count
    ensures c < 0 <==> l.count < r.count
  {
    if l.count > r.count then 1 else if l.count < r.count then -1 else 0
  }

  /** While the counts are 64-bit values whose difference fits in 31 bits,
      compare returns the difference itself, so its sign agrees with
      CompareCounts. */
  lemma CompareExact(l: Tree, r: Tree)
    requires l.count < TWO64 && r.count < TWO64
    requires -TWO31 < l.count - r.count < TWO31
    ensures Compare(l, r) == l.count - r.count
    ensures Compare(l, r) > 0 <==> CompareCounts(l, r) > 0
    ensures Compare(l, r) == 0 <==> CompareCounts(l, r) == 0
  {
    var d := l.count - r.count;
    if d < 0 {
      assert (d % TWO64) == TWO64 + d;
      assert (TWO64 + d) % TWO32 == TWO32 + d;
    } else {
      assert d % TWO64 == d;
      assert d % TWO32 == d;
    }
  }

  /** Beyond that range the cast loses the sign: a count of 2^31 is reported
      smaller than a count of 0, where CompareCounts has it greater, and a
      count of 2^32 equal to it. */
  lemma CompareMisorders()
    ensures Compare(Leaf(0x41, TWO31), Leaf(0x42, 0)) < 0
    ensures Compare(Leaf(0x41, TWO32), Leaf(0x42, 0)) == 0
    ensures CompareCounts(Leaf(0x41, TWO31), Leaf(0x42, 0)) > 0
  {
    assert TWO31 % TWO64 == TWO31;
    assert TWO31 % TWO32 == TWO31;
    assert TWO32 % TWO64 == TWO32;
    assert TWO32 % TWO32 == 0;
  }

  /** CompareCounts is an order on trees by count: antisymmetric and
      transitive. */
  lemma CompareCountsOrders(a: Tree, b: Tree, c: Tree)
    ensures CompareCounts(a, b) > 0 <==> CompareCounts(b, a) < 0
    ensures CompareCounts(a, b) <= 0 && CompareCounts(b, c) <= 0 ==> CompareCounts(a, c) <= 0
  {
  }

  /** Number of leaves. */
  function LeafCount(t: Tree): nat
  {
    match t
    case Leaf(_, _) => 1
    case Node(_, l, r) => LeafCount(l) + LeafCount(r)
  }

  /** Number of interior nodes. */
  function InternalCount(t: Tree): nat
  {
    match t
    case Leaf(_, _) => 0
    case Node(_, l, r) => 1 + InternalCount(l) + InternalCount(r)
  }

  /** Number of edges on the longest root-to-leaf path. */
  function Depth(t: Tree): nat
  {
    match t
    case Leaf(_, _) => 0
    case Node(_, l, r) => 1 + (if Depth(l) < Depth(r) then Depth(r) else Depth(l))
  }

  /** A path from the root passes fewer interior nodes than there are
      leaves. */
  lemma {:induction false} DepthBound(t: Tree)
    ensures Depth(t) < LeafCount(t)
  {
    match t
    case Leaf(_, _) =>
    case Node(_, l, r) =>
      DepthBound(l);
      DepthBound(r);
  }

  /** The leaves of a tree, with their counts. */
  function Leaves(t: Tree): multiset<Tree>
  {
    match t
    case Leaf(_, _) => multiset{t}
    case Node(_, l, r) => Leaves(l) + Leaves(r)
  }

  /** The leaf symbols of a tree, one per leaf, as numbers 0..255. */
  function Syms(t: Tree): multiset<int>
  {
    match t
    case Leaf(s, _) => multiset{s as int}
    case Node(_, l, r) => Syms(l) + Syms(r)
  }

  /** Every interior node's count is the sum of its children's, as join
      makes it. */
  predicate Weighted(t: Tree)
  {
    match t
    case Leaf(_, _) => true
    case Node(c, l, r) => c == l.count + r.count && Weighted(l) && Weighted(r)
  }

  /** No symbol occurs on two leaves. */
  predicate UniqueSymbols(t: Tree)
  {
    match t
    case Leaf(_, _) => true
    case Node(_, l, r) => UniqueSymbols(l) && UniqueSymbols(r) && Syms(l) !! Syms(r)
  }

  /** Full binary tree: L leaves and L - 1 interior nodes. */
  lemma {:induction false} FullBinary(t: Tree)
    ensures InternalCount(t) == LeafCount(t) - 1
    ensures |Leaves(t)| == |Syms(t)| == LeafCount(t)
  {
    match t
    case Leaf(_, _) =>
    case Node(_, l, r) =>
      FullBinary(l);
      FullBinary(r);
  }

  /** A multiset of symbols without repetitions. */
  ghost predicate NoDup(m: multiset<int>)
  {
    forall x :: m[x] <= 1
  }

  /** A tree whose symbol multiset has no repetition has unique symbols. */
  lemma {:induction false} NoDupUnique(t: Tree)
    requires NoDup(Syms(t))
    ensures UniqueSymbols(t)
  {
    match t
    case Leaf(_, _) =>
    case Node(_, l, r) =>
      assert NoDup(Syms(l)) by {
        forall x ensures Syms(l)[x] <= 1 { assert Syms(t)[x] == Syms(l)[x] + Syms(r)[x]; }
      }
      assert NoDup(Syms(r)) by {
        forall x ensures Syms(r)[x] <= 1 { assert Syms(t)[x] == Syms(l)[x] + Syms(r)[x]; }
      }
      NoDupUnique(l);
      NoDupUnique(r);
      forall x | x in Syms(l) ensures x !in Syms(r) {
        assert Syms(t)[x] == Syms(l)[x] + Syms(r)[x] <= 1;
      }
  }

  /** delTree (huffman.h:29-36) frees the left subtree, then the right
      subtree, then the node: its order of visits. */
  function PostOrder(t: Tree): (r: seq<Tree>)
    ensures r != [] && r[|r| - 1] == t
  {
    match t
    case Leaf(_, _) => [t]
    case Node(_, l, r) => PostOrder(l) + PostOrder(r) + [t]
  }

  /** delTree visits each of the 2L - 1 nodes once, a node after all of its
      descendants, so the root is freed last. */
  lemma {:induction false} PostOrderVisitsAll(t: Tree)
    ensures |PostOrder(t)| == LeafCount(t) + InternalCount(t) == 2 * LeafCount(t) - 1
    ensures PostOrder(t)[|PostOrder(t)| - 1] == t
    ensures t.Node? ==> PostOrder(t) == PostOrder(t.left) + PostOrder(t.right) + [t]
  {
    match t
    case Leaf(_, _) =>
    case Node(_, l, r) =>
      PostOrderVisitsAll(l);
      PostOrderVisitsAll(r);
      FullBinary(t);
  }
}
