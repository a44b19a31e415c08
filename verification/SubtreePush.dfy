/** cmd/send-subtree-push: one BRC-143 subtree object, its root patched in last. */
module SubtreePush {
  import opened Bytes
  import opened Buffers
  import opened WireFormat
  import opened ObjFmt
  import opened HashLists
  import Merkle

  const PLACEHOLDER: Digest := Fill(0xFF, 32)

  /** Node i of a subtree: the coinbase placeholder, or four words of the stream. */
  function Node(words: nat -> u64, pos: nat, placeholder: bool, i: nat): (h: Digest) {
    if placeholder && i == 0 then PLACEHOLDER
    else RandBytes(words, pos + 4 * (if placeholder then i - 1 else i), 32)
  }

  function Nodes(words: nat -> u64, pos: nat, placeholder: bool, n: nat): (hs: seq<Digest>)
    ensures |hs| == n
  {
    if n == 0 then [] else Nodes(words, pos, placeholder, n - 1) + [Node(words, pos, placeholder, n - 1)]
  }

  /** Words drawn for the first n nodes: four each, none for the placeholder. */
  function NodeWords(placeholder: bool, n: nat): nat {
    4 * (if placeholder && n > 0 then n - 1 else n)
  }

  function SubtreeOf(sha: Sha, hs: seq<Digest>): Value {
    Pair(Raw(Merkle.RootOf(sha, hs)), List(Items(hs)))
  }

  lemma {:induction false} SubtreePrints(sha: Sha, hs: seq<Digest>)
    requires 0 < |hs| < U64
    ensures Fits(SUBTREE, SubtreeOf(sha, hs))
    ensures Print(SUBTREE, SubtreeOf(sha, hs)) == Concat(Merkle.RootOf(sha, hs), Be(|hs|, 8) + Join(hs))
  {
    hide Merkle.RootOf;
    hide Items;
    hide Be;
    hide PrintMany;
    NodesPrint(hs);
    assert Print(Fixed(32), Raw(Merkle.RootOf(sha, hs))) == Merkle.RootOf(sha, hs);
  }

  /** Lines 138-147: the node records, from byte 40 on. */
  method FillNodes(rng: Rng, obj: array<byte>, nodes: nat, placeholder: bool)
    requires obj.Length == SUBTREE_HEADER_SIZE + nodes * 32
    modifies rng, obj
    ensures var hs := Nodes(rng.words, old(rng.pos), placeholder, nodes);
            |Join(hs)| == 32 * nodes && obj[SUBTREE_HEADER_SIZE..] == Join(hs)
    ensures obj[..SUBTREE_HEADER_SIZE] == old(obj[..SUBTREE_HEADER_SIZE])
    ensures rng.pos == old(rng.pos) + NodeWords(placeholder, nodes)
  {
    hide Wrote;
    hide RandBytes;
    hide Join;
    ghost var pos, start := rng.pos, obj[..];
    WroteNothing(start, 40);
    ItemsPrint(Nodes(rng.words, pos, placeholder, 0));
    for i := 0 to nodes
      invariant rng.pos == pos + NodeWords(placeholder, i)
      invariant |Join(Nodes(rng.words, pos, placeholder, i))| == 32 * i
      invariant Wrote(start, obj[..], 40, Join(Nodes(rng.words, pos, placeholder, i)))
    {
      ghost var before, done := obj[..], Nodes(rng.words, pos, placeholder, i);
      var off := SUBTREE_HEADER_SIZE + i * 32;
      if i == 0 && placeholder {
        var _ := Put(obj, off, PLACEHOLDER);
      } else {
        var _ := FillRand(rng, obj, off, 32);
      }
      WroteThen(start, before, obj[..], 40, Join(done), Node(rng.words, pos, placeholder, i));
      JoinMore(done, Node(rng.words, pos, placeholder, i));
    }
    WroteTail(start, obj[..], 40, Join(Nodes(rng.words, pos, placeholder, nodes)));
  }

  /** -nodes is at least 1; the object length 40 + 32 * nodes is a Go int. */
  method BuildSubtree(sha: Sha, rng: Rng, nodes: nat, placeholder: bool) returns (obj: array<byte>, root: Digest)
    requires 1 <= nodes && SUBTREE_HEADER_SIZE + nodes * 32 < 0x8000_0000_0000_0000
    modifies rng
    ensures fresh(obj)
    ensures var hs := Nodes(rng.words, old(rng.pos), placeholder, nodes);
            && root == Merkle.RootOf(sha, hs)
            && Fits(SUBTREE, SubtreeOf(sha, hs))
            && obj[..] == Print(SUBTREE, SubtreeOf(sha, hs))
    ensures rng.pos == old(rng.pos) + NodeWords(placeholder, nodes)
  {
    hide Merkle.RootOf;
    hide Wrote;
    hide Nodes;
    hide Join;
    hide Fits;
    hide Print;
    hide SubtreeOf;
    hide Be;
    ghost var hs := Nodes(rng.words, rng.pos, placeholder, nodes);
    obj := new byte[SUBTREE_HEADER_SIZE + nodes * 32];
    FillNodes(rng, obj, nodes, placeholder);
    JoinHashes(hs);
    root := Merkle.Root(sha, obj[SUBTREE_HEADER_SIZE..], 32, nodes);
    ghost var filled := obj[..];
    assert filled[40..] == Join(hs);
    var _ := Put(obj, 0, root);
    ghost var rooted := obj[..];
    var _ := Put(obj, 32, Be(nodes, 8));
    WroteThen(filled, rooted, obj[..], 0, root, Be(nodes, 8));
    WroteFront(filled, obj[..], Concat(root, Be(nodes, 8)));
    SubtreePrints(sha, hs);
    Assoc(root, Be(nodes, 8), Join(hs));
  }

  lemma {:induction false} PlaceholderOnes()
    ensures forall j :: 0 <= j < 32 ==> PLACEHOLDER[j] == 0xFF
  {
    var ones := Fill(0xFF, 32);
    assert forall j :: 0 <= j < 32 ==> ones[j] == 0xFF;
  }

  lemma {:induction false} NodeAt(words: nat -> u64, pos: nat, placeholder: bool, n: nat, i: nat)
    requires i < n
    ensures Nodes(words, pos, placeholder, n)[i] == Node(words, pos, placeholder, i)
  {
    hide Node;
    if i < n - 1 {
      NodeAt(words, pos, placeholder, n - 1, i);
    }
  }

  /** The coinbase placeholder is all ones, and stands for node 0 alone; any other node is four words of the
      stream, in order. */
  lemma {:induction false} NodeBytes(words: nat -> u64, pos: nat, placeholder: bool, n: nat, i: nat)
    requires i < n
    ensures var h := Nodes(words, pos, placeholder, n)[i];
            && (placeholder && i == 0 ==> forall j :: 0 <= j < 32 ==> h[j] == 0xFF)
            && (placeholder && i > 0 ==> h == RandBytes(words, pos + 4 * (i - 1), 32))
            && (!placeholder ==> h == RandBytes(words, pos + 4 * i, 32))
  {
    NodeAt(words, pos, placeholder, n, i);
    hide RandBytes;
    hide Nodes;
    PlaceholderOnes();
  }

  /** The printed subtree, by offset: root, node count, and node i at 40 + 32 * i. */
  lemma {:induction false} SubtreeBytes(sha: Sha, hs: seq<Digest>, i: nat)
    requires i < |hs| < U64
    ensures var s := Print(SUBTREE, SubtreeOf(sha, hs));
            && |s| == 40 + 32 * |hs| && s[..32] == Merkle.RootOf(sha, hs) && s[32..40] == Be(|hs|, 8)
            && s[40 + 32 * i..72 + 32 * i] == hs[i]
  {
    SubtreePrints(sha, hs);
    JoinAt(hs, i);
    hide Print;
    hide Join;
    hide Be;
    hide SubtreeOf;
    hide Merkle.RootOf;
    var s, root, rest := Print(SUBTREE, SubtreeOf(sha, hs)), Merkle.RootOf(sha, hs), Be(|hs|, 8) + Join(hs);
    assert s[32..] == rest && rest[8..] == Join(hs) && s[40..] == rest[8..];
    assert s[32..40] == rest[..8];
    assert s[40 + 32 * i..72 + 32 * i] == s[40..][i * 32..i * 32 + 32];
  }
}
