/** The saved tree: dumpTree (encode.c:145-159) writes the tree in post
    order, 'L' and the symbol for a leaf and 'I' after the two subtrees of
    an interior node; loadTree (decode.c:38-72) reads it back with a stack,
    pushing a leaf of count 1 for each 'L' and joining the top two entries
    for any other byte. */
module TreeCodec {
  import opened Huffman
  import opened Wrappers
  import opened Stack
  import opened BlockWrite
  import Seqs

  /** The tags of the saved tree, 'L' and 'I' in ASCII. */
  const LEAF_TAG: bv8 := 0x4C
  const NODE_TAG: bv8 := 0x49

  /** The saved bytes of one node. */
  function Tag(t: Tree): seq<bv8>
  {
    match t
    case Leaf(s, _) => [LEAF_TAG, s]
    case Node(_, _, _) => [NODE_TAG]
  }

  /** dumpTree's output for a tree. */
  function Dump(t: Tree): (r: seq<bv8>)
    ensures |r| >= 2 && r[0] == LEAF_TAG
  {
    match t
    case Leaf(s, _) => [LEAF_TAG, s]
    case Node(_, l, r) => Dump(l) + Dump(r) + [NODE_TAG]
  }

  /** The tags of a sequence of nodes, one after the other. */
  function Tags(ns: seq<Tree>): seq<bv8>
  {
    if ns == [] then [] else Tags(ns[..|ns| - 1]) + Tag(ns[|ns| - 1])
  }

  lemma {:induction false} TagsConcat(a: seq<Tree>, b: seq<Tree>)
    ensures Tags(a + b) == Tags(a) + Tags(b)
    decreases |b|
  {
    if b == [] {
      assert a + b == a;
    } else {
      TagsConcat(a, b[..|b| - 1]);
      Seqs.ConcatInit(a, b);
      Seqs.Assoc(Tags(a), Tags(b[..|b| - 1]), Tag(b[|b| - 1]));
    }
  }

  /** dumpTree is a post-order walk: its output is the tags of the nodes in
      the order delTree visits them, 3L - 1 bytes for a tree of L leaves. */
  lemma {:induction false} DumpPostOrder(t: Tree)
    ensures Dump(t) == Tags(PostOrder(t))
    ensures |Dump(t)| == 3 * LeafCount(t) - 1
  {
    match t
    case Leaf(_, _) =>
      Seqs.AppendInit([], t);
    case Node(_, l, r) =>
      DumpPostOrder(l);
      DumpPostOrder(r);
      TagsConcat(PostOrder(l), PostOrder(r));
      TagsConcat(PostOrder(l) + PostOrder(r), [t]);
      Seqs.AppendInit([], t);
  }

  /** dumpTree itself, writing each byte through buffered_write without a
      flush. */
  method DumpTree(w: BlockWriter, t: Tree)
    requires w.Valid()
    modifies w, w.buffer
    ensures w.Valid() && w.buffer == old(w.buffer)
    ensures w.data == old(w.data) + Dump(t)
    ensures old(w.out) <= w.out
    decreases t
  {
    ghost var d0 := w.data;
    match t
    case Leaf(s, _) =>
      var ok := w.BufferedWrite([LEAF_TAG], false);
      ok := w.BufferedWrite([s], false);
      Seqs.Assoc(d0, [LEAF_TAG], [s]);
    case Node(_, l, r) =>
      DumpTree(w, l);
      DumpTree(w, r);
      var ok := w.BufferedWrite([NODE_TAG], false);
      Seqs.Assoc(d0, Dump(l), Dump(r));
      Seqs.Assoc(d0, Dump(l) + Dump(r), [NODE_TAG]);
  }

  /** How loading a saved tree fails: an interior tag with fewer than two
      entries on the stack ("Incorrect tree"), or an 'L' as the last byte,
      whose symbol would lie past the end of the saved tree. */
  datatype LoadError = IncorrectTree | Overrun

  /** The stack loadTree holds after scanning b, starting from stk. */
  function Scan(b: seq<bv8>, stk: seq<Tree>): (r: Result<seq<Tree>, LoadError>)
    ensures r.Success? ==> |r.value| <= |stk| + |b|
    decreases |b|
  {
    if b == [] then Success(stk)
    else if b[0] == LEAF_TAG then
      if |b| < 2 then Failure(Overrun) else Scan(b[2..], stk + [Leaf(b[1], 1)])
    else if |stk| < 2 then Failure(IncorrectTree)
    else Scan(b[1..], stk[..|stk| - 2] + [Join(stk[|stk| - 2], stk[|stk| - 1])])
  }

  /** loadTree's result: the top of the final stack, whatever lies below it,
      or no tree (NULL) when the stack is empty. */
  function Load(b: seq<bv8>): (r: Result<Option<Tree>, LoadError>)
    ensures b == [] ==> r == Success(None)
    ensures |b| == 1 ==> r.Failure?
  {
    match Scan(b, [])
    case Failure(e) => Failure(e)
    case Success(stk) => Success(if stk == [] then None else Some(stk[|stk| - 1]))
  }

  /** The tree loadTree builds from a dumped tree: the same shape and
      symbols, every leaf of count 1, every interior node the sum of its
      children as join makes it. */
  function Reload(t: Tree): (r: Tree)
    ensures r.Leaf? == t.Leaf?
  {
    match t
    case Leaf(s, _) => Leaf(s, 1)
    case Node(_, l, r) => Join(Reload(l), Reload(r))
  }

  /** Two trees of the same shape with the same symbol at each leaf. */
  predicate SameShape(a: Tree, b: Tree)
  {
    match a
    case Leaf(s, _) => b.Leaf? && b.symbol == s
    case Node(_, l, r) => b.Node? && SameShape(l, b.left) && SameShape(r, b.right)
  }

  /** Reload keeps the shape and symbols, and weights the tree by leaf
      count. */
  lemma {:induction false} ReloadShape(t: Tree)
    ensures SameShape(t, Reload(t)) && Weighted(Reload(t))
    ensures Syms(Reload(t)) == Syms(t)
    ensures Reload(t).count == LeafCount(t)
    ensures LeafCount(Reload(t)) == LeafCount(t) && Depth(Reload(t)) == Depth(t)
  {
    match t
    case Leaf(_, _) =>
    case Node(_, l, r) =>
      ReloadShape(l);
      ReloadShape(r);
  }

  /** Trees of the same shape are equal when the leaf counts follow the
      shape: Reload forgets only counts. */
  lemma {:induction false} SameShapeReload(a: Tree, b: Tree)
    requires SameShape(a, b)
    ensures Reload(a) == Reload(b)
  {
    match a
    case Leaf(_, _) =>
    case Node(_, l, r) =>
      SameShapeReload(l, b.left);
      SameShapeReload(r, b.right);
  }

  /** Scanning a dumped tree pushes its reloaded copy. */
  lemma {:induction false} ScanDump(t: Tree, rest: seq<bv8>, stk: seq<Tree>)
    ensures Scan(Dump(t) + rest, stk) == Scan(rest, stk + [Reload(t)])
  {
    match t
    case Leaf(s, _) =>
      var b := Dump(t) + rest;
      assert b[0] == LEAF_TAG && b[1] == s;
      Seqs.DropDrop(b, 0, 2);
      assert b[2..] == rest;
    case Node(_, l, r) =>
      var tail := Dump(r) + ([NODE_TAG] + rest);
      calc {
        Dump(t) + rest;
        Dump(l) + Dump(r) + [NODE_TAG] + rest;
        { Seqs.Assoc(Dump(l) + Dump(r), [NODE_TAG], rest);
          Seqs.Assoc(Dump(l), Dump(r), [NODE_TAG] + rest); }
        Dump(l) + tail;
      }
      ScanDump(l, tail, stk);
      ScanDump(r, [NODE_TAG] + rest, stk + [Reload(l)]);
      var s2 := stk + [Reload(l)] + [Reload(r)];
      Seqs.PushTwo(stk, Reload(l), Reload(r));
      var b := [NODE_TAG] + rest;
      assert b[0] == NODE_TAG && b[1..] == rest;
      assert Scan(b, s2) == Scan(rest, stk + [Join(Reload(l), Reload(r))]);
  }

  /** Round trip: loadTree on dumpTree's output gives back the tree, up to
      the leaf counts, which become 1. */
  lemma LoadDump(t: Tree)
    ensures Load(Dump(t)) == Success(Some(Reload(t)))
    ensures SameShape(t, Load(Dump(t)).value.value)
  {
    ScanDump(t, [], []);
    assert Dump(t) + [] == Dump(t);
    assert [] + [Reload(t)] == [Reload(t)];
    ReloadShape(t);
  }

  /** loadTree rejects a lone interior tag and a trailing 'L', and gives no
      tree for an empty saved tree. */
  lemma LoadErrors(s: bv8)
    ensures Load([NODE_TAG]) == Failure(IncorrectTree)
    ensures Load([LEAF_TAG, s, NODE_TAG]) == Failure(IncorrectTree)
    ensures Load([LEAF_TAG]) == Failure(Overrun)
    ensures Load([]) == Success(None)
  {
    var b := [LEAF_TAG, s, NODE_TAG];
    assert b[2..] == [NODE_TAG];
    assert Scan(b, []) == Scan([NODE_TAG], [] + [Leaf(s, 1)]);
  }

  /** Entries left below the top are not noticed: two dumped trees in a row
      load as the second. */
  lemma LoadIgnoresResidue(t1: Tree, t2: Tree)
    ensures Load(Dump(t1) + Dump(t2)) == Success(Some(Reload(t2)))
  {
    ScanDump(t1, Dump(t2), []);
    ScanDump(t2, [], [Reload(t1)]);
    assert Dump(t2) + [] == Dump(t2);
    assert [] + [Reload(t1)] == [Reload(t1)];
  }

  /** One 'L' step of the scan. */
  lemma ScanLeaf(saved: seq<bv8>, i: nat, stk: seq<Tree>)
    requires i + 1 < |saved| && saved[i] == LEAF_TAG
    ensures Scan(saved[i..], stk) == Scan(saved[i + 2..], stk + [Leaf(saved[i + 1], 1)])
  {
    Seqs.DropDrop(saved, i, 2);
  }

  /** One interior step of the scan. */
  lemma ScanNode(saved: seq<bv8>, i: nat, e: seq<Tree>, a: Tree, b: Tree)
    requires i < |saved| && saved[i] != LEAF_TAG
    ensures Scan(saved[i..], e + [a] + [b]) == Scan(saved[i + 1..], e + [Join(a, b)])
  {
    Seqs.DropDrop(saved, i, 1);
    Seqs.PushTwo(e, a, b);
  }

  /** loadTree (decode.c:38-72) on the saved tree, with the stack of
      stack.c. */
  method LoadTree(saved: seq<bv8>) returns (r: Result<Option<Tree>, LoadError>)
    ensures r == Load(saved)
  {
    var count := 0;
    var s := new Stack();
    while count < |saved|
      invariant count <= |saved| && s.Valid() && fresh(s.entries)
      invariant Scan(saved, []) == Scan(saved[count..], s.Elements())
      decreases |saved| - count
    {
      ghost var rest := saved[count..];
      if saved[count] == LEAF_TAG {
        count := count + 1;
        if count == |saved| {
          return Failure(Overrun);
        }
        ScanLeaf(saved, count - 1, s.Elements());
        var t := Leaf(saved[count], 1);
        s.Push(t);
      } else {
        var b := s.Pop();
        if b.None? {
          return Failure(IncorrectTree);
        }
        var a := s.Pop();
        if a.None? {
          return Failure(IncorrectTree);
        }
        ScanNode(saved, count, s.Elements(), a.value, b.value);
        s.Push(Join(a.value, b.value));
      }
      count := count + 1;
    }
    assert saved[count..] == [];
    var top := s.Pop();
    r := Success(top);
  }
}
