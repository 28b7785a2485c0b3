/** The priority queue of tree nodes (priority.c, queue.h): a circular array
    Q of `size` slots with cursors `tail` (next to leave) and `head` (next
    free slot).  One slot always stays free, so `head == tail` means empty
    and `succ(head) == tail` means full.  enqueue is one step of an insertion
    sort that keeps the entries in ascending count order from tail to
    head - 1, shifting only past strictly larger entries. */
module Priority {
  import opened Huffman
  import opened Wrappers

  const U32: int := 0x1_0000_0000

  /** succ (priority.c:6), in uint32 arithmetic. */
  function Succ(x: nat, n: nat): (r: nat)
    requires 0 < n
    ensures r < n
  {
    ((x + n + 1) % U32) % n
  }

  /** pred (priority.c:11), in uint32 arithmetic. */
  function Pred(x: nat, n: nat): (r: nat)
    requires 0 < n
    ensures r < n
  {
    ((x + n - 1) % U32) % n
  }

  lemma ModAbove(a: int, n: int)
    requires 0 < n <= a < 2 * n
    ensures a % n == a - n
  {
  }

  lemma ModBelow(a: int, n: int)
    requires 0 <= a < n
    ensures a % n == a
  {
  }

  lemma ModTwice(n: int)
    requires 0 < n
    ensures (2 * n) % n == 0
  {
  }

  /** For a queue of fewer than 2^31 slots succ steps one slot forward
      around the ring. */
  lemma SuccStep(x: nat, n: nat)
    requires x < n < TWO31
    ensures Succ(x, n) == if x + 1 == n then 0 else x + 1
  {
    ModBelow(x + n + 1, U32);
    if x + 1 == n { ModTwice(n); } else { ModAbove(x + n + 1, n); }
  }

  /** ... and pred one slot backward. */
  lemma PredStep(x: nat, n: nat)
    requires x < n < TWO31
    ensures Pred(x, n) == if x == 0 then n - 1 else x - 1
  {
    ModBelow(x + n - 1, U32);
    if x == 0 { ModBelow(n - 1, n); } else { ModAbove(x + n - 1, n); }
  }

  /** succ and pred undo each other. */
  lemma SuccPred(x: nat, n: nat)
    requires x < n < TWO31
    ensures Succ(x, n) == if x + 1 == n then 0 else x + 1
    ensures Pred(x, n) == if x == 0 then n - 1 else x - 1
    ensures Pred(Succ(x, n), n) == x && Succ(Pred(x, n), n) == x
  {
    SuccStep(x, n);
    PredStep(x, n);
    PredStep(Succ(x, n), n);
    SuccStep(Pred(x, n), n);
  }

  /** Entries in nondecreasing count order. */
  ghost predicate Sorted(s: seq<Tree>)
  {
    forall i, j :: 0 <= i < j < |s| ==> s[i].count <= s[j].count
  }

  /** What enqueue does to the queue's contents: walking back from the end,
      x moves past every entry that compares strictly greater. */
  function Insert(s: seq<Tree>, x: Tree): (r: seq<Tree>)
    ensures |r| == |s| + 1
    decreases |s|
  {
    if s == [] then [x]
    else if CompareCounts(s[|s| - 1], x) > 0 then Insert(s[..|s| - 1], x) + [s[|s| - 1]]
    else s + [x]
  }

  /** The slot at which enqueue stores x, counted from the tail. */
  function InsertPos(s: seq<Tree>, x: Tree): (j: nat)
    ensures j <= |s|
    decreases |s|
  {
    if s == [] then 0
    else if CompareCounts(s[|s| - 1], x) > 0 then InsertPos(s[..|s| - 1], x)
    else |s|
  }

  /** x lands after every entry of count at most its own that precedes the
      first strictly larger suffix: everything from the insertion point on
      is strictly larger, the entry just before it is not. */
  lemma {:induction false} InsertAt(s: seq<Tree>, x: Tree)
    ensures InsertPos(s, x) <= |s|
    ensures Insert(s, x) == s[..InsertPos(s, x)] + [x] + s[InsertPos(s, x)..]
    ensures forall k :: InsertPos(s, x) <= k < |s| ==> s[k].count > x.count
    ensures InsertPos(s, x) > 0 ==> s[InsertPos(s, x) - 1].count <= x.count
    decreases |s|
  {
    if s != [] && CompareCounts(s[|s| - 1], x) > 0 {
      var init := s[..|s| - 1];
      InsertAt(init, x);
      var j := InsertPos(init, x);
      assert init[..j] == s[..j];
      assert init[j..] + [s[|s| - 1]] == s[j..];
    }
  }

  /** One step of enqueue's loop: moving x past an entry that compares
      strictly greater. */
  lemma InsertStep(s: seq<Tree>, x: Tree, j: nat)
    requires 0 < j <= |s| && CompareCounts(s[j - 1], x) > 0
    ensures Insert(s[..j], x) + s[j..] == Insert(s[..j - 1], x) + s[j - 1..]
  {
    assert s[..j][..j - 1] == s[..j - 1];
    assert s[j - 1..] == [s[j - 1]] + s[j..];
  }

  /** The loop stops at the tail or below an entry that is not greater. */
  lemma InsertStop(s: seq<Tree>, x: Tree, j: nat)
    requires j <= |s| && (j == 0 || CompareCounts(s[j - 1], x) <= 0)
    ensures Insert(s[..j], x) + s[j..] == s[..j] + [x] + s[j..]
  {
    if j > 0 {
      assert s[..j][j - 1] == s[j - 1];
    }
  }

  /** enqueue keeps the entries sorted. */
  lemma InsertSorted(s: seq<Tree>, x: Tree)
    requires Sorted(s)
    ensures Sorted(Insert(s, x))
  {
    InsertAt(s, x);
    var j := InsertPos(s, x);
    var r := Insert(s, x);
    forall a, b | 0 <= a < b < |r| ensures r[a].count <= r[b].count {
      if b == j {
        assert r[a] == s[a];
      } else if a == j {
        assert r[b] == s[b - 1];
      } else {
        var a' := if a < j then a else a - 1;
        var b' := if b < j then b else b - 1;
        assert r[a] == s[a'] && r[b] == s[b'];
      }
    }
  }

  /** enqueue adds exactly x to the entries. */
  lemma {:induction false} InsertAdds(s: seq<Tree>, x: Tree)
    ensures multiset(Insert(s, x)) == multiset(s) + multiset{x}
    decreases |s|
  {
    if s != [] && CompareCounts(s[|s| - 1], x) > 0 {
      var init := s[..|s| - 1];
      InsertAdds(init, x);
      assert s == init + [s[|s| - 1]];
    }
  }

  /** enqueue is stable: x goes after every entry whose count is at most
      x's, so entries of equal count leave in the order they arrived. */
  lemma InsertStable(s: seq<Tree>, x: Tree)
    requires Sorted(s)
    ensures Insert(s, x)[InsertPos(s, x)] == x
    ensures forall k :: 0 <= k < |s| && s[k].count <= x.count ==> k < InsertPos(s, x)
    ensures forall k :: 0 <= k < InsertPos(s, x) ==> Insert(s, x)[k] == s[k]
  {
    InsertAt(s, x);
  }

  /** enqueue's insertion as the source writes it, ordering by compare's
      32-bit cast instead of the sign of the count difference. */
  function InsertAsWritten(s: seq<Tree>, x: Tree): (r: seq<Tree>)
    ensures |r| == |s| + 1
    decreases |s|
  {
    if s == [] then [x]
    else if Compare(s[|s| - 1], x) > 0 then InsertAsWritten(s[..|s| - 1], x) + [s[|s| - 1]]
    else s + [x]
  }

  /** While every count is below 2^31, the insertion as written is Insert. */
  lemma {:induction false} InsertAgrees(s: seq<Tree>, x: Tree)
    requires forall k :: 0 <= k < |s| ==> s[k].count < TWO31
    requires x.count < TWO31
    ensures InsertAsWritten(s, x) == Insert(s, x)
    decreases |s|
  {
    if s != [] {
      CompareExact(s[|s| - 1], x);
      InsertAgrees(s[..|s| - 1], x);
    }
  }

  /** Beyond that the queue leaves count order: with the full-tree option on
      a file of 2^31 bytes 0x41, the leaf 0x42 of count 0 is enqueued behind
      the leaf 0x41 of count 2^31, where Insert puts it in front. */
  lemma InsertMisorders()
    ensures InsertAsWritten([Leaf(0x41, TWO31)], Leaf(0x42, 0)) == [Leaf(0x41, TWO31), Leaf(0x42, 0)]
    ensures !Sorted(InsertAsWritten([Leaf(0x41, TWO31)], Leaf(0x42, 0)))
    ensures Insert([Leaf(0x41, TWO31)], Leaf(0x42, 0)) == [Leaf(0x42, 0), Leaf(0x41, TWO31)]
  {
    CompareMisorders();
    var s := [Leaf(0x41, TWO31)];
    var r := InsertAsWritten(s, Leaf(0x42, 0));
    assert r == s + [Leaf(0x42, 0)];
    assert r[0].count > r[1].count;
    assert s[..0] == [];
  }

  /** The positions tail, tail + 1, ... around a ring of n slots. */
  function Slot(tail: nat, k: nat, n: nat): nat
  {
    if tail + k < n then tail + k else tail + k - n
  }

  /** Number of live entries between the cursors. */
  function Count(head: nat, tail: nat, n: nat): nat
    requires tail <= n
  {
    if head >= tail then head - tail else head + n - tail
  }

  /** Stepping around the ring moves one slot past tail. */
  lemma SlotStep(tail: nat, k: nat, n: nat)
    requires tail < n < TWO31 && 0 < k < n
    ensures Pred(Slot(tail, k, n), n) == Slot(tail, k - 1, n)
  {
    PredStep(Slot(tail, k, n), n);
  }

  /** The ring read from slot t onwards, wrapping around once. */
  function Rotate(q: seq<Tree>, t: nat): (r: seq<Tree>)
    requires t <= |q|
    ensures |r| == |q|
  {
    q[t..] + q[..t]
  }

  lemma RotateAt(q: seq<Tree>, t: nat, k: nat)
    requires t < |q| && k < |q|
    ensures Rotate(q, t)[k] == q[Slot(t, k, |q|)]
  {
  }

  /** Writing slot k past t is writing position k of the rotated view. */
  lemma RotateUpdate(q: seq<Tree>, t: nat, k: nat, v: Tree)
    requires t < |q| && k < |q|
    ensures Rotate(q[Slot(t, k, |q|) := v], t) == Rotate(q, t)[k := v]
  {
    var a := Rotate(q[Slot(t, k, |q|) := v], t);
    var b := Rotate(q, t)[k := v];
    forall m | 0 <= m < |q| ensures a[m] == b[m] {
      RotateAt(q[Slot(t, k, |q|) := v], t, m);
      RotateAt(q, t, m);
    }
  }

  /** Advancing the start by one slot shifts the rotated view by one. */
  lemma RotateNext(q: seq<Tree>, t: nat)
    requires t < |q| < TWO31
    ensures Rotate(q, Succ(t, |q|)) == Rotate(q, t)[1..] + [q[t]]
  {
    SuccStep(t, |q|);
    if t + 1 == |q| {
      assert q[..t] + [q[t]] == q;
    } else {
      assert q[..t + 1] == q[..t] + [q[t]];
    }
  }

  /** The view of q from t agrees with C below j and holds C from j on
      one place higher: the state of enqueue's shifting loop. */
  ghost predicate Shifted(q: seq<Tree>, t: nat, j: nat, C: seq<Tree>)
  {
    && t < |q| && j <= |C| < |q|
    && Rotate(q, t)[..j] == C[..j]
    && Rotate(q, t)[j + 1..|C| + 1] == C[j..]
  }

  /** Below the gap the ring holds C. */
  lemma ShiftedBelow(q: seq<Tree>, t: nat, j: nat, C: seq<Tree>)
    requires Shifted(q, t, j, C) && 0 < j
    ensures q[Slot(t, j - 1, |q|)] == C[j - 1]
  {
    RotateAt(q, t, j - 1);
    assert Rotate(q, t)[j - 1] == C[..j][j - 1];
  }

  /** One step of the shifting loop: copying the entry below the gap up
      one slot moves the gap down by one. */
  lemma ShiftOne(q: seq<Tree>, t: nat, j: nat, C: seq<Tree>)
    requires Shifted(q, t, j, C) && 0 < j && |q| < TWO31
    ensures Shifted(q[Slot(t, j, |q|) := q[Slot(t, j - 1, |q|)]], t, j - 1, C)
  {
    var R := Rotate(q, t);
    ShiftedBelow(q, t, j, C);
    RotateUpdate(q, t, j, C[j - 1]);
    var R' := R[j := C[j - 1]];
    assert R'[..j - 1] == R[..j][..j - 1];
    assert R'[j..|C| + 1] == [C[j - 1]] + R[j + 1..|C| + 1];
    assert C[j - 1..] == [C[j - 1]] + C[j..];
  }

  /** Filling the gap at j with x stores C[..j] + [x] + C[j..]. */
  lemma ShiftFill(q: seq<Tree>, t: nat, j: nat, C: seq<Tree>, x: Tree)
    requires Shifted(q, t, j, C)
    ensures Rotate(q[Slot(t, j, |q|) := x], t)[..|C| + 1] == C[..j] + [x] + C[j..]
  {
    RotateUpdate(q, t, j, x);
    var R := Rotate(q, t)[j := x];
    assert R[..|C| + 1] == R[..j] + [R[j]] + R[j + 1..|C| + 1];
  }

  /** Before enqueue's loop the gap is at head, past every live entry. */
  lemma ShiftStart(q: seq<Tree>, t: nat, h: nat, C: seq<Tree>)
    requires t < |q| && h < |q| && C == Rotate(q, t)[..Count(h, t, |q|)] && |C| < |q| - 1
    ensures Shifted(q, t, |C|, C) && Slot(t, |C|, |q|) == h
    ensures C[..|C|] == C && C[|C|..] == []
  {
  }

  /** While the entry below the gap compares greater than x, the gap is
      above Insert's insertion point, and moving it down keeps Insert. */
  lemma ShiftPast(q: seq<Tree>, t: nat, j: nat, C: seq<Tree>, x: Tree)
    requires Shifted(q, t, j, C) && |q| < TWO31
    requires Slot(t, j, |q|) != t && CompareCounts(q[Pred(Slot(t, j, |q|), |q|)], x) > 0
    ensures 0 < j && Insert(C[..j], x) + C[j..] == Insert(C[..j - 1], x) + C[j - 1..]
  {
    SlotStep(t, j, |q|);
    ShiftedBelow(q, t, j, C);
    InsertStep(C, x, j);
  }

  /** Where enqueue's loop stops, at the tail or below an entry that is
      not greater than x, the gap is Insert's insertion point. */
  lemma ShiftStop(q: seq<Tree>, t: nat, j: nat, C: seq<Tree>, x: Tree)
    requires Shifted(q, t, j, C) && |q| < TWO31
    requires Slot(t, j, |q|) == t || CompareCounts(q[Pred(Slot(t, j, |q|), |q|)], x) <= 0
    ensures Insert(C[..j], x) + C[j..] == C[..j] + [x] + C[j..]
  {
    if j > 0 {
      SlotStep(t, j, |q|);
      ShiftedBelow(q, t, j, C);
    }
    InsertStop(C, x, j);
  }

  class Queue {
    var size: nat
    var head: nat
    var tail: nat
    var Q: array<Tree>

    /** The live entries, from tail to head - 1. */
    ghost var Contents: seq<Tree>

    /** The ring holds Contents from tail to head - 1. */
    ghost predicate Ring()
      reads this, Q
    {
      && Q.Length == size
      && 0 < size < TWO31
      && head < size && tail < size
      && Contents == Rotate(Q[..], tail)[..Count(head, tail, size)]
    }

    /** ... in ascending count order. */
    ghost predicate Valid()
      reads this, Q
    {
      Ring() && Sorted(Contents)
    }

    /** newQueue (priority.c:16-29): both cursors at slot 0. */
    constructor (n: nat)
      requires 0 < n < TWO31
      ensures Valid() && fresh(Q)
      ensures size == n && head == 0 && tail == 0 && Contents == []
    {
      size := n;
      head := 0;
      tail := 0;
      Q := new Tree[n];
      Contents := [];
    }

    /** A queue of `size` slots holds at most size - 1 entries. */
    lemma Capacity()
      requires Valid()
      ensures |Contents| <= size - 1
    {
    }

    /** empty (priority.c:44-50) */
    predicate IsEmpty()
      reads this, Q
      requires Valid()
      ensures IsEmpty() <==> Contents == []
    {
      head == tail
    }

    /** full (priority.c:54-60) */
    predicate IsFull()
      reads this, Q
      requires Valid()
      ensures IsFull() <==> |Contents| == size - 1
    {
      SuccStep(head, size);
      Succ(head, size) == tail
    }

    /** enqueue (priority.c:68-84) */
    method Enqueue(i: Tree) returns (ok: bool)
      requires Valid()
      modifies this, Q
      ensures Valid() && Q == old(Q) && size == old(size)
      ensures ok <==> old(|Contents|) < size - 1
      ensures ok ==> Contents == Insert(old(Contents), i)
      ensures !ok ==> Contents == old(Contents) && head == old(head) && tail == old(tail)
                      && Q[..] == old(Q[..])
    {
      if IsFull() {
        return false;
      }
      ghost var C := Contents;
      var slot, j := ShiftGreater(i);
      ShiftFill(Q[..], tail, j, C, i);
      Q[slot] := i;
      SuccStep(head, size);
      head := Succ(head, size);
      Contents := Insert(C, i);
      InsertSorted(C, i);
      ok := true;
    }

    /** enqueue's while loop: starting from the free slot at head, move
        every entry that compares strictly greater than i one slot up, and
        return the slot left free for i, `j` slots past the tail. */
    method ShiftGreater(i: Tree) returns (slot: nat, ghost j: nat)
      requires Ring() && |Contents| < size - 1
      modifies Q
      ensures slot == Slot(tail, j, size) && Shifted(Q[..], tail, j, Contents)
      ensures Insert(Contents, i) == Contents[..j] + [i] + Contents[j..]
    {
      ghost var C := Contents;
      ShiftStart(Q[..], tail, head, C);
      slot := head;
      j := |C|;
      while slot != tail && CompareCounts(Q[Pred(slot, size)], i) > 0
        invariant slot == Slot(tail, j, size) && Shifted(Q[..], tail, j, C)
        invariant Insert(C, i) == Insert(C[..j], i) + C[j..]
        modifies Q
        decreases j
      {
        ShiftPast(Q[..], tail, j, C, i);
        slot := MoveUp(slot, j, C);
        j := j - 1;
      }
      ShiftStop(Q[..], tail, j, C, i);
    }

    /** One pass of enqueue's while loop (priority.c:76-79): the entry
        below the gap moves up into it, and the gap one slot down. */
    method MoveUp(slot: nat, ghost j: nat, ghost C: seq<Tree>) returns (slot': nat)
      requires Q.Length == size < TWO31 && tail < size && 0 < j
      requires slot == Slot(tail, j, size) && Shifted(Q[..], tail, j, C)
      modifies Q
      ensures slot' == Slot(tail, j - 1, size) && Shifted(Q[..], tail, j - 1, C)
    {
      SlotStep(tail, j, size);
      ShiftOne(Q[..], tail, j, C);
      Q[slot] := Q[Pred(slot, size)];
      slot' := Pred(slot, size);
    }

    /** dequeue (priority.c:86-96): the entry at the tail, which has the
        least count, or None when the queue is empty. */
    method Dequeue() returns (r: Option<Tree>)
      requires Valid()
      modifies this
      ensures Valid() && Q == old(Q) && size == old(size) && head == old(head)
      ensures r.None? <==> old(Contents) == []
      ensures r.None? ==> Contents == old(Contents) && tail == old(tail)
      ensures r.Some? ==> r.value == old(Contents)[0] && Contents == old(Contents)[1..]
      ensures r.Some? ==> forall k :: 0 <= k < |old(Contents)| ==> r.value.count <= old(Contents)[k].count
    {
      if IsEmpty() {
        return None;
      }
      r := Some(Q[tail]);
      RotateNext(Q[..], tail);
      SuccStep(tail, size);
      tail := Succ(tail, size);
      Contents := Contents[1..];
    }
  }
}
