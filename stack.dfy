/** The scratch stack of tree nodes used by the tree loader (stack.c,
    stack.h): an array `entries` of `size` slots of which the first `top`
    are live.  push doubles the array when it is full; pop on an empty
    stack gives the null item, modelled as None. */
module Stack {
  import opened Huffman
  import opened Wrappers

  /** MIN_STACK (stack.c:6), the initial number of slots. */
  const MIN_STACK: nat := 256

  class Stack {
    var size: nat
    var top: nat
    var entries: array<Tree>

    ghost predicate Valid()
      reads this
    {
      entries.Length == size && 0 < size && top <= size
    }

    /** The live entries, bottom first. */
    function Elements(): seq<Tree>
      reads this, entries
      requires Valid()
    {
      entries[..top]
    }

    /** newStack (stack.c:12-23): MIN_STACK slots, none live. */
    constructor ()
      ensures Valid() && fresh(entries)
      ensures size == MIN_STACK && top == 0 && Elements() == []
    {
      size := MIN_STACK;
      top := 0;
      entries := new Tree[MIN_STACK];
    }

    /** emptyS (stack.h:31) */
    predicate IsEmpty()
      reads this, entries
      requires Valid()
      ensures IsEmpty() <==> Elements() == []
    {
      top == 0
    }

    /** pop (stack.c:28-35): the top entry, or None when there is none. */
    method Pop() returns (r: Option<Tree>)
      requires Valid()
      modifies this
      ensures Valid() && entries == old(entries) && size == old(size)
      ensures r.None? <==> old(Elements()) == []
      ensures r.None? ==> top == 0 && Elements() == old(Elements())
      ensures r.Some? ==> top == old(top) - 1
                          && old(Elements()) == Elements() + [r.value]
    {
      if top > 0 {
        top := top - 1;
        r := Some(entries[top]);
      } else {
        r := None;
      }
    }

    /** push (stack.c:40-50): store i at the old top, first doubling the
        array, and keeping every live entry, when no slot is free. */
    method Push(i: Tree)
      requires Valid()
      modifies this, entries
      ensures Valid() && top == old(top) + 1
      ensures Elements() == old(Elements()) + [i]
      ensures size == if old(top) == old(size) then 2 * old(size) else old(size)
      ensures old(top) < old(size) ==> entries == old(entries)
      ensures old(top) == old(size) ==> fresh(entries)
    {
      if top == size {
        var grown := new Tree[2 * size](k => i);
        forall k | 0 <= k < top {
          grown[k] := entries[k];
        }
        size := 2 * size;
        entries := grown;
      }
      entries[top] := i;
      top := top + 1;
    }
  }

  /** A push followed by a pop gives back the pushed item and the stack as
      it was before. */
  method PushPop(s: Stack, i: Tree) returns (r: Option<Tree>)
    requires s.Valid()
    modifies s, s.entries
    ensures s.Valid() && r == Some(i)
    ensures s.Elements() == old(s.Elements()) && s.top == old(s.top)
  {
    s.Push(i);
    r := s.Pop();
  }
}
