/** internal/merkle: the level-by-level Merkle root against the plain recursive tree. */
module Merkle {
  import opened Bytes

  /** A pair of child nodes, with absent (all-zero) children as in merkle.go 22-36. */
  function Parent(sha: Sha, left: Digest, right: Digest): Digest {
    if left == ZERO then ZERO
    else Sha256d(sha, Concat(left, if right == ZERO then left else right))
  }

  function Pow2(d: nat): (p: nat)
    ensures p > 0
  {
    if d == 0 then 1 else 2 * Pow2(d - 1)
  }

  // ---------------------------------------------------------------- the reference tree

  /** The root of a perfect binary tree with 2^d leaves. */
  function TreeRoot(sha: Sha, leaves: seq<Digest>, d: nat): Digest
    requires |leaves| == Pow2(d)
  {
    if d == 0 then leaves[0]
    else
      var half := Pow2(d - 1);
      Parent(sha, TreeRoot(sha, leaves[..half], d - 1), TreeRoot(sha, leaves[half..], d - 1))
  }

  /** Absent nodes fill up the last level of the tree. */
  function Pad(nodes: seq<Digest>, n: nat): (leaves: seq<Digest>)
    requires |nodes| <= n
    ensures |leaves| == n
  {
    nodes + seq(n - |nodes|, _ => ZERO)
  }

  /** The depth of the smallest perfect tree with room for n leaves. */
  function Depth(n: nat): (d: nat)
    ensures n <= Pow2(d)
    ensures d > 0 ==> Pow2(d - 1) < n
  {
    if n <= 1 then 0 else Depth((n + 1) / 2) + 1
  }

  /** The specification of Root. */
  function RootOf(sha: Sha, nodes: seq<Digest>): Digest {
    TreeRoot(sha, Pad(nodes, Pow2(Depth(|nodes|))), Depth(|nodes|))
  }

  // ---------------------------------------------------------------- one level up

  function At(nodes: seq<Digest>, i: nat): Digest {
    if i < |nodes| then nodes[i] else ZERO
  }

  function ParentAt(sha: Sha, nodes: seq<Digest>, p: nat): Digest {
    Parent(sha, At(nodes, 2 * p), At(nodes, 2 * p + 1))
  }

  /** The level above: node p has children 2p and 2p + 1, absent when beyond the end. */
  function LevelUp(sha: Sha, nodes: seq<Digest>): (up: seq<Digest>)
    ensures |up| == (|nodes| + 1) / 2
    ensures forall p :: 0 <= p < |up| ==> up[p] == ParentAt(sha, nodes, p)
  {
    seq((|nodes| + 1) / 2, (p: nat) => ParentAt(sha, nodes, p))
  }

  /** Going up a level commutes with padding by absent nodes. */
  lemma {:induction false} LevelUpPad(sha: Sha, nodes: seq<Digest>, n: nat)
    requires |nodes| <= 2 * n
    ensures LevelUp(sha, Pad(nodes, 2 * n)) == Pad(LevelUp(sha, nodes), n)
  {
    hide LevelUp;
    var a, b := LevelUp(sha, Pad(nodes, 2 * n)), Pad(LevelUp(sha, nodes), n);
    forall p | 0 <= p < n
      ensures a[p] == b[p]
    {
      assert At(Pad(nodes, 2 * n), 2 * p) == At(nodes, 2 * p);
      assert At(Pad(nodes, 2 * n), 2 * p + 1) == At(nodes, 2 * p + 1);
    }
  }

  lemma TreeRootStep(sha: Sha, leaves: seq<Digest>, d: nat)
    requires |leaves| == Pow2(d + 1)
    ensures |leaves| == 2 * Pow2(d)
    ensures TreeRoot(sha, leaves, d + 1)
         == Parent(sha, TreeRoot(sha, leaves[..Pow2(d)], d), TreeRoot(sha, leaves[Pow2(d)..], d))
  {
  }

  lemma TwoLeaves(sha: Sha, leaves: seq<Digest>)
    requires |leaves| == 2
    ensures LevelUp(sha, leaves) == [Parent(sha, leaves[0], leaves[1])]
  {
    hide LevelUp;
    hide Parent;
  }

  /** A perfect tree has the root of its second-lowest level. */
  lemma {:induction false} TreeRootLevelUp(sha: Sha, leaves: seq<Digest>, d: nat)
    requires |leaves| == Pow2(d + 1)
    ensures |LevelUp(sha, leaves)| == Pow2(d)
    ensures TreeRoot(sha, leaves, d + 1) == TreeRoot(sha, LevelUp(sha, leaves), d)
  {
    hide LevelUp;
    hide Parent;
    TreeRootStep(sha, leaves, d);
    if d == 0 {
      TwoLeaves(sha, leaves);
    } else {
      hide TreeRoot;
      TreeRootLevelUp(sha, leaves[..Pow2(d)], d - 1);
      TreeRootLevelUp(sha, leaves[Pow2(d)..], d - 1);
      LevelUpHalves(sha, leaves, Pow2(d - 1));
      TreeRootStep(sha, LevelUp(sha, leaves), d - 1);
    }
  }

  lemma {:induction false} LevelUpHalves(sha: Sha, leaves: seq<Digest>, h: nat)
    requires |leaves| == 4 * h
    ensures LevelUp(sha, leaves)[..h] == LevelUp(sha, leaves[..2 * h])
    ensures LevelUp(sha, leaves)[h..] == LevelUp(sha, leaves[2 * h..])
  {
    hide LevelUp;
    hide Parent;
    var up, lo, hi := LevelUp(sha, leaves), LevelUp(sha, leaves[..2 * h]), LevelUp(sha, leaves[2 * h..]);
    forall p | 0 <= p < h
      ensures up[p] == lo[p] && up[h + p] == hi[p]
    {
      assert up[h + p] == ParentAt(sha, leaves, h + p);
    }
    assert up[..h] == lo && up[h..] == hi;
  }

  /** Each pass of the level loop keeps the root. */
  lemma {:induction false} RootLevelUp(sha: Sha, nodes: seq<Digest>)
    requires |nodes| > 1
    ensures RootOf(sha, nodes) == RootOf(sha, LevelUp(sha, nodes))
  {
    hide TreeRoot;
    hide LevelUp;
    hide Pad;
    var d := Depth((|nodes| + 1) / 2);
    assert Depth(|nodes|) == d + 1;
    assert Pow2(d + 1) == 2 * Pow2(d);
    LevelUpPad(sha, nodes, Pow2(d));
    TreeRootLevelUp(sha, Pad(nodes, Pow2(d + 1)), d);
  }

  // ---------------------------------------------------------------- Root

  /** The node hashes: the first 32 bytes of each stride-byte record. */
  function Hashes(nodes: seq<byte>, stride: nat, n: nat): (hs: seq<Digest>)
    requires n > 0 && (n - 1) * stride + 32 <= |nodes|
    ensures |hs| == n
  {
    seq(n, i requires 0 <= i < n => RecordHash(nodes, stride, n, i))
  }

  function RecordHash(nodes: seq<byte>, stride: nat, n: nat, i: nat): Digest
    requires i < n && (n - 1) * stride + 32 <= |nodes|
  {
    RecordInside(stride, n, i);
    nodes[i * stride..i * stride + 32]
  }

  lemma {:induction false} RecordInside(stride: nat, n: nat, i: nat)
    requires i < n
    ensures 0 <= i * stride <= (n - 1) * stride
  {
    assert (n - 1) * stride == i * stride + (n - 1 - i) * stride;
  }

  method Root(sha: Sha, nodes: seq<byte>, stride: nat, n: nat) returns (root: Digest)
    requires n > 0 && (n - 1) * stride + 32 <= |nodes|
    ensures root == RootOf(sha, Hashes(nodes, stride, n))
  {
    var level := new Digest[n](_ => ZERO);
    for i := 0 to n
      invariant forall k :: 0 <= k < i ==> level[k] == RecordHash(nodes, stride, n, k)
    {
      RecordInside(stride, n, i);
      var off := i * stride;
      var record := nodes[off..off + 32];
      level[i] := record;
    }
    assert level[..] == Hashes(nodes, stride, n);
    while level.Length > 1
      invariant level.Length > 0
      invariant RootOf(sha, level[..]) == RootOf(sha, Hashes(nodes, stride, n))
      decreases level.Length
    {
      level := NextLevel(sha, level);
    }
    assert level[..] == [level[0]];
    return level[0];
  }

  /** The parent of nodes 2p and 2p + 1, as lines 23-36 of merkle.go find it. */
  method PairUp(sha: Sha, level: array<Digest>, p: nat) returns (parent: Digest)
    requires 2 * p < level.Length
    ensures parent == ParentAt(sha, level[..], p)
  {
    var left := level[2 * p];
    if left == ZERO {
      return ZERO;
    }
    var right := left;
    if 2 * p + 1 < level.Length && level[2 * p + 1] != ZERO {
      right := level[2 * p + 1];
    }
    var pair := Concat(left, right);
    parent := Sha256d(sha, pair);
  }

  /** One pass of merkle.go's outer loop. */
  method NextLevel(sha: Sha, level: array<Digest>) returns (next: array<Digest>)
    requires level.Length > 1
    ensures fresh(next) && next[..] == LevelUp(sha, level[..])
    ensures RootOf(sha, next[..]) == RootOf(sha, level[..])
  {
    hide RootOf;
    hide LevelUp;
    hide ParentAt;
    ghost var nodes := level[..];
    next := new Digest[(level.Length + 1) / 2](_ => ZERO);
    for p := 0 to next.Length
      invariant level[..] == nodes
      invariant forall k :: 0 <= k < p ==> next[k] == ParentAt(sha, nodes, k)
    {
      var parent := PairUp(sha, level, p);
      next[p] := parent;
    }
    assert next[..] == LevelUp(sha, nodes);
    RootLevelUp(sha, nodes);
  }

  // ---------------------------------------------------------------- consequences

  /** Only the hashes matter: the stride and the bytes after each hash do not. */
  lemma {:induction false} StrideIrrelevant(sha: Sha, a: seq<byte>, s: nat, b: seq<byte>, t: nat, n: nat)
    requires n > 0 && (n - 1) * s + 32 <= |a| && (n - 1) * t + 32 <= |b|
    requires forall i :: 0 <= i < n ==> RecordHash(a, s, n, i) == RecordHash(b, t, n, i)
    ensures RootOf(sha, Hashes(a, s, n)) == RootOf(sha, Hashes(b, t, n))
  {
    assert Hashes(a, s, n) == Hashes(b, t, n);
  }

  /** An odd level of three or more nodes has the same root with its last node repeated, or with an
      absent node after it. */
  lemma {:induction false} OddLevelTail(sha: Sha, nodes: seq<Digest>, extra: Digest)
    requires |nodes| >= 3 && |nodes| % 2 == 1
    requires extra == ZERO || extra == nodes[|nodes| - 1]
    ensures RootOf(sha, nodes + [extra]) == RootOf(sha, nodes)
  {
    hide RootOf;
    hide LevelUp;
    var more := nodes + [extra];
    forall p | 0 <= p <= |nodes| / 2
      ensures LevelUp(sha, more)[p] == LevelUp(sha, nodes)[p]
    {
      assert 2 * p < |nodes| && At(more, 2 * p) == At(nodes, 2 * p);
      if 2 * p + 1 < |nodes| {
        assert At(more, 2 * p + 1) == At(nodes, 2 * p + 1);
      }
    }
    assert LevelUp(sha, more) == LevelUp(sha, nodes);
    RootLevelUp(sha, more);
    RootLevelUp(sha, nodes);
  }

  /** The bound is sharp: a single node is its own root, but two copies of it are hashed. */
  lemma {:induction false} SingleNodeRoots(sha: Sha, node: Digest)
    ensures RootOf(sha, [node]) == node
    ensures RootOf(sha, [node, node]) == RootOf(sha, [node, ZERO]) == if node == ZERO then ZERO else Sha256d(sha, Concat(node, node))
  {
    RootLevelUp(sha, [node, node]);
    RootLevelUp(sha, [node, ZERO]);
    assert LevelUp(sha, [node, node]) == [Parent(sha, node, node)];
    assert LevelUp(sha, [node, ZERO]) == [Parent(sha, node, ZERO)];
  }

  // ---------------------------------------------------------------- what is hashed

  /** Two nodes are hashed in their order, twice. */
  lemma {:induction false} PairRoot(sha: Sha, a: Digest, b: Digest)
    requires a != ZERO && b != ZERO
    ensures RootOf(sha, [a, b]) == sha(sha(a[..] + b[..]))
  {
    RootLevelUp(sha, [a, b]);
    assert LevelUp(sha, [a, b]) == [ParentAt(sha, [a, b], 0)];
    SingleNodeRoots(sha, ParentAt(sha, [a, b], 0));
  }

  /** The root of a tree with two halves: the double hash of the left half's root followed by the right
      half's, by itself again when the right half is absent; absent when the left half is. */
  lemma {:induction false} HalvesHashed(sha: Sha, leaves: seq<Digest>, d: nat)
    requires |leaves| == Pow2(d + 1)
    ensures |leaves[..Pow2(d)]| == |leaves[Pow2(d)..]| == Pow2(d)
    ensures var l, r := TreeRoot(sha, leaves[..Pow2(d)], d), TreeRoot(sha, leaves[Pow2(d)..], d);
            && (l != ZERO && r != ZERO ==> TreeRoot(sha, leaves, d + 1) == sha(sha(l[..] + r[..])))
            && (l != ZERO && r == ZERO ==> TreeRoot(sha, leaves, d + 1) == sha(sha(l[..] + l[..])))
            && (l == ZERO ==> TreeRoot(sha, leaves, d + 1) == ZERO)
  {
    TreeRootStep(sha, leaves, d);
    hide TreeRoot;
  }

  /** Any list of two or more nodes splits at the largest power of two below its length: the full left part
      and the right part, filled up with absent nodes, are hashed in that order. */
  lemma {:induction false} RootHashed(sha: Sha, nodes: seq<Digest>, d: nat)
    requires Pow2(d) < |nodes| <= Pow2(d + 1)
    ensures |nodes[Pow2(d)..]| <= Pow2(d)
    ensures var l, r := TreeRoot(sha, nodes[..Pow2(d)], d), TreeRoot(sha, Pad(nodes[Pow2(d)..], Pow2(d)), d);
            && (l != ZERO && r != ZERO ==> RootOf(sha, nodes) == sha(sha(l[..] + r[..])))
            && (l != ZERO && r == ZERO ==> RootOf(sha, nodes) == sha(sha(l[..] + l[..])))
            && (l == ZERO ==> RootOf(sha, nodes) == ZERO)
  {
    DepthUnique(|nodes|, d);
    var leaves := Pad(nodes, Pow2(d + 1));
    assert leaves[..Pow2(d)] == nodes[..Pow2(d)];
    assert leaves[Pow2(d)..] == Pad(nodes[Pow2(d)..], Pow2(d));
    HalvesHashed(sha, leaves, d);
    hide TreeRoot;
    hide Pad;
  }

  lemma {:induction false} DepthUnique(n: nat, d: nat)
    requires Pow2(d) < n <= Pow2(d + 1)
    ensures Depth(n) == d + 1
  {
    if d > 0 {
      DepthUnique((n + 1) / 2, d - 1);
    }
  }

  /** Three nodes: the last is paired with itself, and the two pairs are hashed in order. */
  lemma {:induction false} ThreeNodes(sha: Sha, a: Digest, b: Digest, c: Digest)
    requires a != ZERO && b != ZERO && c != ZERO
    requires sha(sha(a[..] + b[..])) != ZERO && sha(sha(c[..] + c[..])) != ZERO
    ensures var ab, cc := sha(sha(a[..] + b[..])), sha(sha(c[..] + c[..]));
            RootOf(sha, [a, b, c]) == sha(sha(ab[..] + cc[..]))
  {
    RootLevelUp(sha, [a, b, c]);
    var ab, cc := sha(sha(a[..] + b[..])), sha(sha(c[..] + c[..]));
    assert LevelUp(sha, [a, b, c]) == [ab, cc];
    PairRoot(sha, ab, cc);
  }
}
