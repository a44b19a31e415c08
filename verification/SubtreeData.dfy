/** cmd/send-subtree-data: the BRC-132 payload of a subtree, hashes only or full node records. */
module SubtreeData {
  import opened Bytes
  import opened Buffers
  import Merkle

  const PAYLOAD_HEADER_SIZE := 24
  const CONFLICT_COUNT_SIZE := 8

  function NodeSize(full: bool): nat {
    if full then 48 else 32
  }

  /** One node record: the hash, and for full nodes a fee of 1 and a size of 250. */
  function Record(full: bool, h: Digest): (r: seq<byte>)
    ensures |r| == NodeSize(full)
  {
    if full then h + (Be(1, 8) + Be(250, 8)) else h
  }

  function Records(full: bool, hs: seq<Digest>): seq<byte> {
    if hs == [] then [] else Records(full, hs[..|hs| - 1]) + Record(full, hs[|hs| - 1])
  }

  /** TotalFees, TotalSizeBytes, NodeCount, the nodes, ConflictCount. */
  function Payload(full: bool, hs: seq<Digest>): seq<byte> {
    Be(if full then |hs| else 0, 8) + Be(if full then |hs| * 250 else 0, 8) + Be(|hs|, 8) + Records(full, hs) + Be(0, 8)
  }

  lemma {:induction false} RecordsSize(full: bool, hs: seq<Digest>)
    ensures |Records(full, hs)| == |hs| * NodeSize(full)
  {
    if hs != [] {
      RecordsSize(full, hs[..|hs| - 1]);
      assert |hs| * NodeSize(full) == (|hs| - 1) * NodeSize(full) + NodeSize(full);
    }
  }

  /** Record i starts with hash i. */
  lemma {:induction false} RecordsAt(full: bool, hs: seq<Digest>, i: nat)
    requires i < |hs|
    ensures |Records(full, hs)| == |hs| * NodeSize(full)
    ensures 0 <= i * NodeSize(full) && i * NodeSize(full) + 32 <= |Records(full, hs)|
    ensures Records(full, hs)[i * NodeSize(full)..i * NodeSize(full) + 32] == hs[i]
  {
    var k := |hs| - 1;
    RecordsSize(full, hs);
    RecordsSize(full, hs[..k]);
    assert |hs| * NodeSize(full) == k * NodeSize(full) + NodeSize(full);
    if i < k {
      RecordsAt(full, hs[..k], i);
    }
  }

  /** Merkle.Root finds the same hashes whichever record size carries them. */
  lemma {:induction false} HashesOfRecords(full: bool, hs: seq<Digest>)
    requires hs != []
    ensures |Records(full, hs)| == |hs| * NodeSize(full)
    ensures (|hs| - 1) * NodeSize(full) + 32 <= |Records(full, hs)|
    ensures Merkle.Hashes(Records(full, hs), NodeSize(full), |hs|) == hs
  {
    RecordsAt(full, hs, |hs| - 1);
    forall i | 0 <= i < |hs|
      ensures Merkle.RecordHash(Records(full, hs), NodeSize(full), |hs|, i) == hs[i]
    {
      RecordsAt(full, hs, i);
    }
  }

  /** Lines 143-150: entropy is what crypto/rand delivers, one hash per node. */
  method FillRecords(p: array<byte>, full: bool, entropy: seq<Digest>)
    requires p.Length == PAYLOAD_HEADER_SIZE + |entropy| * NodeSize(full) + CONFLICT_COUNT_SIZE
    modifies p
    ensures |Records(full, entropy)| == |entropy| * NodeSize(full)
    ensures Wrote(old(p[..]), p[..], PAYLOAD_HEADER_SIZE, Records(full, entropy))
  {
    hide Wrote;
    hide Be;
    hide Records;
    ghost var s0 := p[..];
    WroteNothing(s0, PAYLOAD_HEADER_SIZE);
    NoRecords(full);
    for i := 0 to |entropy|
      invariant |Records(full, entropy[..i])| == i * NodeSize(full)
      invariant Wrote(s0, p[..], PAYLOAD_HEADER_SIZE, Records(full, entropy[..i]))
    {
      ghost var before, done := p[..], Records(full, entropy[..i]);
      Inside(i, |entropy|, NodeSize(full));
      var off := PAYLOAD_HEADER_SIZE + i * NodeSize(full);
      PutRecord(p, off, full, entropy[i]);
      WroteThen(s0, before, p[..], PAYLOAD_HEADER_SIZE, done, Record(full, entropy[i]));
      OneMore(full, entropy, i);
    }
    assert entropy[..|entropy|] == entropy;
  }

  lemma NoRecords(full: bool)
    ensures Records(full, []) == []
  {
  }

  lemma {:induction false} OneMore(full: bool, hs: seq<Digest>, i: nat)
    requires i < |hs|
    ensures Records(full, hs[..i + 1]) == Records(full, hs[..i]) + Record(full, hs[i])
    ensures |Records(full, hs[..i + 1])| == (i + 1) * NodeSize(full)
  {
    assert hs[..i + 1][..i] == hs[..i];
    RecordsSize(full, hs[..i + 1]);
  }

  lemma {:induction false} Inside(i: nat, n: nat, size: nat)
    requires i < n
    ensures 0 <= i * size && i * size + size <= n * size
  {
    assert n * size == i * size + size + (n - i - 1) * size;
  }

  method PutRecord(p: array<byte>, off: nat, full: bool, h: Digest)
    requires off + NodeSize(full) <= p.Length
    modifies p
    ensures Wrote(old(p[..]), p[..], off, Record(full, h))
  {
    hide Wrote;
    hide Be;
    ghost var s0 := p[..];
    var _ := Put(p, off, h);
    if full {
      ghost var s1 := p[..];
      var _ := Put(p, off + 32, Be(1, 8));
      ghost var s2 := p[..];
      var _ := Put(p, off + 40, Be(250, 8));
      WroteThen(s1, s2, p[..], off + 32, Be(1, 8), Be(250, 8));
      WroteThen(s0, s1, p[..], off, h, Be(1, 8) + Be(250, 8));
    }
  }

  /** The frame's SubtreeID is the root of the node hashes, in both payload types alike. */
  method NewSubtree(sha: Sha, full: bool, entropy: seq<Digest>) returns (root: Digest, p: array<byte>)
    requires entropy != []
    ensures root == Merkle.RootOf(sha, entropy)
    ensures p[..] == Payload(full, entropy)
  {
    hide Wrote;
    hide Be;
    hide Records;
    hide Merkle.RootOf;
    p := new byte[PAYLOAD_HEADER_SIZE + |entropy| * NodeSize(full) + CONFLICT_COUNT_SIZE](_ => 0);
    ghost var zero := p[..];
    FillRecords(p, full, entropy);
    HashesOfRecords(full, entropy);
    ghost var filled := p[..];
    FilledParts(zero, filled, Records(full, entropy));
    root := Merkle.Root(sha, p[PAYLOAD_HEADER_SIZE..PAYLOAD_HEADER_SIZE + |entropy| * NodeSize(full)], NodeSize(full), |entropy|);
    ZeroWord();
    if full {
      var _ := Put(p, 0, Be(|entropy|, 8));
      ghost var s1 := p[..];
      var _ := Put(p, 8, Be(|entropy| * 250, 8));
      WroteThen(filled, s1, p[..], 0, Be(|entropy|, 8), Be(|entropy| * 250, 8));
    } else {
      ZeroTotals(filled);
    }
    ghost var s2, totals := p[..], Be(if full then |entropy| else 0, 8) + Be(if full then |entropy| * 250 else 0, 8);
    var _ := Put(p, 16, Be(|entropy|, 8));
    WroteThen(filled, s2, p[..], 0, totals, Be(|entropy|, 8));
    WroteWhole(filled, p[..], totals + Be(|entropy|, 8));
    assert p[..] == p[..24] + p[24..];
    Assoc(totals + Be(|entropy|, 8), Records(full, entropy), Be(0, 8));
  }

  lemma {:induction false} ZeroWord()
    ensures Be(0, 8) == Fill(0, 8)
  {
    var z := Be(0, 0);
    assert Be(0, 1) == Be(0, 0) + [0];
    assert Be(0, 2) == Be(0, 1) + [0];
    assert Be(0, 3) == Be(0, 2) + [0];
    assert Be(0, 4) == Be(0, 3) + [0];
    assert Be(0, 5) == Be(0, 4) + [0];
    assert Be(0, 6) == Be(0, 5) + [0];
    assert Be(0, 7) == Be(0, 6) + [0];
    assert Be(0, 8) == Be(0, 7) + [0];
  }

  lemma {:induction false} FilledParts(zero: seq<byte>, filled: seq<byte>, records: seq<byte>)
    requires Wrote(zero, filled, 24, records) && |zero| == 24 + |records| + 8
    requires forall i :: 0 <= i < |zero| ==> zero[i] == 0
    ensures |filled| == |zero| && filled[24..24 + |records|] == records
    ensures filled[24..] == records + Be(0, 8)
    ensures forall i :: 0 <= i < 24 ==> filled[i] == 0
  {
    ZeroWord();
    assert zero[24 + |records|..] == Fill(0, 8);
  }

  lemma {:induction false} ZeroTotals(s: seq<byte>)
    requires |s| >= 16 && forall i :: 0 <= i < 16 ==> s[i] == 0
    ensures Wrote(s, s, 0, Be(0, 8) + Be(0, 8))
  {
    ZeroWord();
    assert s[..16] == Fill(0, 8) + Fill(0, 8);
    assert s == s[..0] + s[..16] + s[16..];
  }

  lemma {:induction false} RecordsInside(full: bool, hs: seq<Digest>, i: nat)
    requires i < |hs|
    ensures |Records(full, hs)| == |hs| * NodeSize(full)
    ensures 0 <= i * NodeSize(full) && i * NodeSize(full) + NodeSize(full) <= |Records(full, hs)|
    ensures Records(full, hs)[i * NodeSize(full)..i * NodeSize(full) + NodeSize(full)] == Record(full, hs[i])
  {
    hide Record;
    var k := |hs| - 1;
    RecordsSize(full, hs);
    RecordsSize(full, hs[..k]);
    assert |hs| * NodeSize(full) == k * NodeSize(full) + NodeSize(full);
    if i < k {
      RecordsInside(full, hs[..k], i);
    }
  }

  lemma {:induction false} PayloadParts(fees: seq<byte>, sizes: seq<byte>, n: seq<byte>, records: seq<byte>,
                                        conflicts: seq<byte>)
    requires |fees| == |sizes| == |n| == |conflicts| == 8
    ensures var p := fees + sizes + n + records + conflicts;
            && |p| == 32 + |records| && p[0..8] == fees && p[8..16] == sizes && p[16..24] == n
            && p[24..24 + |records|] == records && p[24 + |records|..] == conflicts
  {
  }

  /** A full-node payload, by offset: the fees of 1 and sizes of 250 add up to the totals in front. */
  lemma {:induction false} FullPayloadBytes(hs: seq<Digest>, i: nat)
    requires i < |hs|
    ensures var p := Payload(true, hs);
            && |p| == 32 + 48 * |hs| && p[24 + 48 * |hs|..] == Be(0, 8)
            && p[0..8] == Be(|hs| * 1, 8) && p[8..16] == Be(|hs| * 250, 8) && p[16..24] == Be(|hs|, 8)
            && p[24 + 48 * i..56 + 48 * i] == hs[i]
            && p[56 + 48 * i..64 + 48 * i] == Be(1, 8) && p[64 + 48 * i..72 + 48 * i] == Be(250, 8)
  {
    hide Be;
    var r := Records(true, hs);
    RecordsInside(true, hs, i);
    hide Records;
    PayloadParts(Be(|hs|, 8), Be(|hs| * 250, 8), Be(|hs|, 8), r, Be(0, 8));
    var p, rec := Payload(true, hs), Record(true, hs[i]);
    hide Payload;
    assert rec[..32] == hs[i] && rec[32..40] == Be(1, 8) && rec[40..48] == Be(250, 8);
    hide Record;
    assert r[i * 48..i * 48 + 48] == rec;
    assert p[24 + 48 * i..72 + 48 * i] == p[24..24 + |r|][48 * i..48 * i + 48];
    assert p[24 + 48 * i..56 + 48 * i] == p[24 + 48 * i..72 + 48 * i][..32];
    assert p[56 + 48 * i..64 + 48 * i] == p[24 + 48 * i..72 + 48 * i][32..40];
    assert p[64 + 48 * i..72 + 48 * i] == p[24 + 48 * i..72 + 48 * i][40..48];
  }

  /** A hashes-only payload: totals of zero, and the bare hashes. */
  lemma {:induction false} HashesPayloadBytes(hs: seq<Digest>, i: nat)
    requires i < |hs|
    ensures var p := Payload(false, hs);
            && |p| == 32 + 32 * |hs| && p[24 + 32 * |hs|..] == Be(0, 8)
            && p[0..8] == Be(0, 8) && p[8..16] == Be(0, 8) && p[16..24] == Be(|hs|, 8)
            && p[24 + 32 * i..56 + 32 * i] == hs[i]
  {
    hide Be;
    var r := Records(false, hs);
    RecordsInside(false, hs, i);
    hide Records;
    PayloadParts(Be(0, 8), Be(0, 8), Be(|hs|, 8), r, Be(0, 8));
    var p := Payload(false, hs);
    hide Payload;
    assert p[24 + 32 * i..56 + 32 * i] == p[24..24 + |r|][32 * i..32 * i + 32];
  }
}
