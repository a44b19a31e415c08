/** Lists of 32-byte hashes: as bytes on the wire, and as the items of a format. */
module HashLists {
  import opened Bytes
  import opened WireFormat
  import Merkle

  /** Digests as items of a format. */
  function Items(hs: seq<Digest>): (vs: seq<Value>)
    ensures |vs| == |hs|
  {
    if hs == [] then [] else Items(hs[..|hs| - 1]) + [Raw(hs[|hs| - 1])]
  }

  function Join(hs: seq<Digest>): (s: seq<byte>)
    ensures |s| == 32 * |hs|
  {
    if hs == [] then [] else Concat(Join(hs[..|hs| - 1]), hs[|hs| - 1])
  }

  lemma {:induction false} ItemsPrint(hs: seq<Digest>)
    ensures FitAll(Fixed(32), Items(hs)) && PrintMany(Fixed(32), Items(hs)) == Join(hs) && |Join(hs)| == 32 * |hs|
  {
    if hs != [] {
      var k := |hs| - 1;
      ItemsPrint(hs[..k]);
      PrintManyAppend(Fixed(32), Items(hs[..k]), [Raw(hs[k])]);
      assert PrintMany(Fixed(32), [Raw(hs[k])]) == Print(Fixed(32), Raw(hs[k])) + PrintMany(Fixed(32), []);
    }
  }

  /** Merkle.Root reads a joined list as the hashes it was joined from. */
  lemma {:induction false} JoinHashes(hs: seq<Digest>)
    requires hs != []
    ensures |Join(hs)| == 32 * |hs| && Merkle.Hashes(Join(hs), 32, |hs|) == hs
  {
    ItemsPrint(hs);
    forall i | 0 <= i < |hs|
      ensures Merkle.RecordHash(Join(hs), 32, |hs|, i) == hs[i]
    {
      JoinAt(hs, i);
    }
  }

  lemma {:induction false} JoinAt(hs: seq<Digest>, i: nat)
    requires i < |hs|
    ensures |Join(hs)| == 32 * |hs| && Join(hs)[i * 32..i * 32 + 32] == hs[i]
  {
    ItemsPrint(hs);
    var k := |hs| - 1;
    ItemsPrint(hs[..k]);
    if i < k {
      JoinAt(hs[..k], i);
      assert Join(hs)[i * 32..i * 32 + 32] == Join(hs[..k])[i * 32..i * 32 + 32];
    }
  }

  lemma {:induction false} NodesPrint(hs: seq<Digest>)
    requires |hs| < U64
    ensures Fits(Many(Be8, Fixed(32)), List(Items(hs)))
    ensures Print(Many(Be8, Fixed(32)), List(Items(hs))) == Be(|hs|, 8) + Join(hs)
  {
    ItemsPrint(hs);
  }

  lemma {:induction false} JoinMore(hs: seq<Digest>, h: Digest)
    ensures Join(hs + [h]) == Join(hs) + h && |Join(hs + [h])| == 32 * |hs| + 32
  {
    ItemsPrint(hs + [h]);
    assert (hs + [h])[..|hs|] == hs;
  }

  /** The hashes a run of 32-byte records holds. */
  function Split(s: seq<byte>): (hs: seq<Digest>)
    requires |s| % 32 == 0
    ensures |hs| == |s| / 32
  {
    if s == [] then [] else Split(s[..|s| - 32]) + [s[|s| - 32..]]
  }

  lemma {:induction false} SplitMore(front: seq<byte>, h: Digest)
    requires |front| % 32 == 0
    ensures Split(front + h) == Split(front) + [h]
  {
    var s := front + h;
    assert s[..|s| - 32] == front && s[|s| - 32..] == h;
  }

  lemma {:induction false} SplitJoin(s: seq<byte>)
    requires |s| % 32 == 0
    ensures Join(Split(s)) == s
  {
    if s != [] {
      var front, last: Digest := s[..|s| - 32], s[|s| - 32..];
      SplitJoin(front);
      hide Split;
      hide Join;
      assert s == front + last;
      SplitMore(front, last);
      JoinMore(Split(front), last);
    }
  }

  lemma {:induction false} JoinUndone(hs: seq<Digest>)
    ensures |Join(hs)| == 32 * |hs| && Split(Join(hs)) == hs
  {
    ItemsPrint(hs);
    if hs != [] {
      var k := |hs| - 1;
      JoinUndone(hs[..k]);
      assert Join(hs)[..|Join(hs)| - 32] == Join(hs[..k]);
      assert hs == hs[..k] + [hs[k]];
    }
  }
}
