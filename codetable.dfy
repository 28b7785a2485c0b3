/** buildCode (encode.c:161-180): a walk of the tree that pushes 0 before
    the left subtree and 1 before the right one, pops after each, and at a
    leaf stores the code walked so far in the table entry of its symbol.
    The code is passed by value, so each call works on its own copy, and
    the results of pushCode and popCode are ignored. */
module CodeTable {
  import opened Huffman
  import opened Codes
  import Seqs

  /** The table c[] of codes by symbol; an entry buildCode never writes is
      absent. */
  type Table = map<int, Code>

  /** x is the symbol of some leaf of t. */
  predicate Has(t: Tree, x: int)
  {
    match t
    case Leaf(s, _) => s as int == x
    case Node(_, l, r) => Has(l, x) || Has(r, x)
  }

  /** Has agrees with the symbol multiset. */
  lemma {:induction false} HasSyms(t: Tree, x: int)
    ensures Has(t, x) <==> x in Syms(t)
  {
    match t
    case Leaf(_, _) =>
    case Node(_, l, r) =>
      HasSyms(l, x);
      HasSyms(r, x);
  }

  /** p leads from the root of t to a leaf with symbol x, false going left
      and true going right. */
  predicate IsPath(t: Tree, p: seq<bool>, x: int)
    decreases t
  {
    match t
    case Leaf(s, _) => p == [] && s as int == x
    case Node(_, l, r) => p != [] && IsPath(if p[0] then r else l, p[1..], x)
  }

  /** The path to the rightmost leaf with symbol x, the one whose table entry
      buildCode writes last. */
  function PathOf(t: Tree, x: int): seq<bool>
  {
    match t
    case Leaf(_, _) => []
    case Node(_, l, r) => if Has(r, x) then [true] + PathOf(r, x) else [false] + PathOf(l, x)
  }

  /** buildCode(s, t, c) on the table c. */
  function BuildCode(s: Code, t: Tree, c: Table): (r: Table)
    requires Wf(s)
    ensures c.Keys <= r.Keys
    decreases t
  {
    match t
    case Leaf(sym, _) => c[sym as int := s]
    case Node(_, l, r) =>
      var s1 := PushCode(s, 0).1;
      var c1 := BuildCode(s1, l, c);
      var s2 := PopCode(s1, 0).2;
      var s3 := PushCode(s2, 1).1;
      BuildCode(s3, r, c1)
  }

  /** PathOf leads to x, through at most Depth(t) edges, and through at
      least one when the root is an interior node. */
  lemma {:induction false} PathOfIsPath(t: Tree, x: int)
    requires Has(t, x)
    ensures IsPath(t, PathOf(t, x), x) && |PathOf(t, x)| <= Depth(t)
    ensures t.Node? ==> |PathOf(t, x)| >= 1
  {
    match t
    case Leaf(_, _) =>
    case Node(_, l, r) =>
      if Has(r, x) {
        PathOfIsPath(r, x);
        assert ([true] + PathOf(r, x))[1..] == PathOf(r, x);
      } else {
        PathOfIsPath(l, x);
        assert ([false] + PathOf(l, x))[1..] == PathOf(l, x);
      }
  }

  /** A path ends at a leaf of its symbol. */
  lemma {:induction false} IsPathHas(t: Tree, p: seq<bool>, x: int)
    requires IsPath(t, p, x)
    ensures Has(t, x)
  {
    match t
    case Leaf(_, _) =>
    case Node(_, l, r) =>
      IsPathHas(if p[0] then r else l, p[1..], x);
  }

  /** With unique symbols, the path to x is the only one. */
  lemma {:induction false} IsPathUnique(t: Tree, p: seq<bool>, x: int)
    requires UniqueSymbols(t) && IsPath(t, p, x)
    ensures p == PathOf(t, x)
  {
    match t
    case Leaf(_, _) =>
    case Node(_, l, r) =>
      var q := p[1..];
      assert p == [p[0]] + q;
      if p[0] {
        IsPathUnique(r, q, x);
        IsPathHas(r, q, x);
      } else {
        IsPathUnique(l, q, x);
        IsPathHas(l, q, x);
        HasSyms(l, x);
        HasSyms(r, x);
      }
  }

  /** Root-to-leaf paths are prefix-free: a path that begins another is the
      same path, to the same leaf. */
  lemma {:induction false} PathsPrefixFree(t: Tree, p: seq<bool>, x: int, q: seq<bool>, y: int)
    requires IsPath(t, p, x) && IsPath(t, q, y) && p <= q
    ensures p == q && x == y
  {
    match t
    case Leaf(_, _) =>
    case Node(_, l, r) =>
      assert p[0] == q[0];
      PathsPrefixFree(if p[0] then r else l, p[1..], x, q[1..], y);
      assert p == [p[0]] + p[1..] && q == [q[0]] + q[1..];
  }

  /** The table entry of x holds the bits of s followed by p, in a code of
      the same width as s. */
  ghost predicate Stores(m: Table, x: int, s: Code, p: seq<bool>)
    requires Wf(s)
  {
    x in m && Wf(m[x]) && |m[x].bits| == |s.bits| && Bits(m[x]) == Bits(s) + p
  }

  /** The codes buildCode passes to the two subtrees: s with 0 pushed, and s
      with 0 pushed, popped and 1 pushed. */
  lemma ChildCodes(s: Code)
    requires Wf(s) && s.l < Capacity(s)
    ensures Wf(PushCode(s, 0).1) && |PushCode(s, 0).1.bits| == |s.bits|
    ensures PushCode(s, 0).1.l == s.l + 1 && Bits(PushCode(s, 0).1) == Bits(s) + [false]
    ensures Wf(PushCode(PopCode(PushCode(s, 0).1, 0).2, 1).1)
    ensures |PushCode(PopCode(PushCode(s, 0).1, 0).2, 1).1.bits| == |s.bits|
    ensures PushCode(PopCode(PushCode(s, 0).1, 0).2, 1).1.l == s.l + 1
    ensures Bits(PushCode(PopCode(PushCode(s, 0).1, 0).2, 1).1) == Bits(s) + [true]
  {
    PushThenPop(s, 0, 0);
  }

  /** buildCode leaves the entries of symbols not in the tree as they were. */
  lemma {:induction false} BuildCodeKeeps(s: Code, t: Tree, c: Table, x: int)
    requires Wf(s) && !Has(t, x)
    ensures x in BuildCode(s, t, c) <==> x in c
    ensures x in c ==> BuildCode(s, t, c)[x] == c[x]
    decreases t
  {
    match t
    case Leaf(sym, _) =>
      assert BuildCode(s, t, c) == c[sym as int := s] && sym as int != x;
    case Node(_, l, r) =>
      var s1 := PushCode(s, 0).1;
      var s3 := PushCode(PopCode(s1, 0).2, 1).1;
      BuildCodeKeeps(s1, l, c, x);
      BuildCodeKeeps(s3, r, BuildCode(s1, l, c), x);
  }

  /** What buildCode stores: when every path fits in the code, each symbol
      of the tree gets the code s followed by its path. */
  lemma {:induction false} BuildCodeStores(s: Code, t: Tree, c: Table, x: int)
    requires Wf(s) && s.l + Depth(t) <= Capacity(s) && Has(t, x)
    ensures Stores(BuildCode(s, t, c), x, s, PathOf(t, x))
    decreases t
  {
    match t
    case Leaf(_, _) =>
      assert Bits(s) + [] == Bits(s);
    case Node(_, l, r) =>
      var s1 := PushCode(s, 0).1;
      var c1 := BuildCode(s1, l, c);
      var s3 := PushCode(PopCode(s1, 0).2, 1).1;
      ChildCodes(s);
      if Has(r, x) {
        BuildCodeStores(s3, r, c1, x);
        Seqs.Assoc(Bits(s), [true], PathOf(r, x));
      } else {
        BuildCodeStores(s1, l, c, x);
        BuildCodeKeeps(s3, r, c1, x);
        Seqs.Assoc(Bits(s), [false], PathOf(l, x));
      }
  }

  /** The table buildCode builds from a fresh code of `width` bytes. */
  function CodeTableOf(t: Tree, width: nat, c: Table): Table
  {
    BuildCode(NewCode(width), t, c)
  }

  /** The codes of the table: each symbol's code is its path, nonempty under
      an interior root, and no code of one symbol begins the code of
      another, so the code is prefix-free. */
  lemma CodesPrefixFree(t: Tree, width: nat, c: Table)
    requires Depth(t) <= 8 * width
    ensures forall x :: Has(t, x) ==>
      (x in CodeTableOf(t, width, c) && Wf(CodeTableOf(t, width, c)[x])
       && Bits(CodeTableOf(t, width, c)[x]) == PathOf(t, x))
    ensures forall x :: Has(t, x) && t.Node? ==> |Bits(CodeTableOf(t, width, c)[x])| >= 1
    ensures forall x, y :: Has(t, x) && Has(t, y) && x != y ==>
      !(Bits(CodeTableOf(t, width, c)[x]) <= Bits(CodeTableOf(t, width, c)[y]))
  {
    var s := NewCode(width);
    var m := CodeTableOf(t, width, c);
    forall x | Has(t, x)
      ensures x in m && Wf(m[x]) && Bits(m[x]) == PathOf(t, x) && (t.Node? ==> |Bits(m[x])| >= 1)
    {
      BuildCodeStores(s, t, c, x);
      assert [] + PathOf(t, x) == PathOf(t, x);
      PathOfIsPath(t, x);
    }
    forall x, y | Has(t, x) && Has(t, y) && x != y ensures !(Bits(m[x]) <= Bits(m[y])) {
      PathOfIsPath(t, x);
      PathOfIsPath(t, y);
      if PathOf(t, x) <= PathOf(t, y) {
        PathsPrefixFree(t, PathOf(t, x), x, PathOf(t, y), y);
      }
    }
  }
}
