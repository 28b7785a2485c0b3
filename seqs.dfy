/** Small facts about sequences, stated once for any element type. */
module Seqs {

  /** Dropping the last element of a + b, when b is not empty. */
  lemma ConcatInit<T>(a: seq<T>, b: seq<T>)
    requires b != []
    ensures (a + b)[..|a + b| - 1] == a + b[..|b| - 1]
  {
    assert (a + b)[..|a + b| - 1] == a + b[..|b| - 1];
  }

  /** Appending one element and dropping it again. */
  lemma AppendInit<T>(s: seq<T>, x: T)
    ensures (s + [x])[..|s|] == s
    ensures (s + [x])[|s|] == x
  {
    assert (s + [x])[..|s|] == s;
  }

  /** A prefix of a prefix. */
  lemma TakeTake<T>(s: seq<T>, m: nat, n: nat)
    requires m <= n <= |s|
    ensures s[..n][..m] == s[..m]
  {
    assert s[..n][..m] == s[..m];
  }

  /** The whole of a sequence as a prefix. */
  lemma TakeAll<T>(s: seq<T>)
    ensures s[..|s|] == s
  {
  }

  /** A sequence is its prefix followed by its last element. */
  lemma TakeOne<T>(s: seq<T>, n: nat)
    requires n < |s|
    ensures s[..n + 1] == s[..n] + [s[n]]
  {
    assert s[..n + 1] == s[..n] + [s[n]];
  }

  /** Moving the middle term of a multiset union to the end. */
  lemma UnionSwap<T>(a: multiset<T>, b: multiset<T>, c: multiset<T>)
    ensures a + b + c == a + c + b
  {
  }

  /** Multiset union commutes. */
  lemma UnionComm<T>(a: multiset<T>, b: multiset<T>)
    ensures a + b == b + a
  {
  }

  /** A sequence of two or more as its first two elements and the rest. */
  lemma FirstTwo<T>(s: seq<T>)
    requires |s| >= 2
    ensures s == [s[0], s[1]] + s[2..]
  {
    assert s == [s[0], s[1]] + s[2..];
  }

  /** A sequence of one element. */
  lemma Single<T>(s: seq<T>)
    requires |s| == 1
    ensures s == [s[0]]
  {
    assert s == [s[0]];
  }

  /** Multiset union associates. */
  lemma UnionAssoc<T>(a: multiset<T>, b: multiset<T>, c: multiset<T>)
    ensures a + (b + c) == a + b + c
  {
  }

  /** A nonempty sequence as its prefix and its last element. */
  lemma InitLast<T>(s: seq<T>)
    requires s != []
    ensures s == s[..|s| - 1] + [s[|s| - 1]]
  {
    assert s == s[..|s| - 1] + [s[|s| - 1]];
  }

  /** Concatenation associates. */
  lemma Assoc<T>(a: seq<T>, b: seq<T>, c: seq<T>)
    ensures a + b + c == a + (b + c)
  {
  }

  /** Dropping twice. */
  lemma DropDrop<T>(s: seq<T>, i: nat, k: nat)
    requires i + k <= |s|
    ensures s[i..][k..] == s[i + k..]
  {
    assert s[i..][k..] == s[i + k..];
  }

  /** Two elements pushed on a stack and both popped again. */
  lemma PushTwo<T>(s: seq<T>, x: T, y: T)
    ensures (s + [x] + [y])[..|s|] == s
    ensures |s + [x] + [y]| == |s| + 2
    ensures (s + [x] + [y])[|s|] == x && (s + [x] + [y])[|s| + 1] == y
  {
    assert (s + [x] + [y])[..|s|] == s;
  }

  /** Dropping the first element of a concatenation whose left part is not
      empty. */
  lemma DropConcat<T>(a: seq<T>, b: seq<T>)
    requires a != []
    ensures (a + b)[0] == a[0] && (a + b)[1..] == a[1..] + b
  {
    assert (a + b)[1..] == a[1..] + b;
  }

  lemma Unit<T>(s: seq<T>)
    ensures [] + s == s && s + [] == s
  {
  }
}
