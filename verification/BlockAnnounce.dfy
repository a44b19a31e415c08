/** cmd/send-block-announce: the BlockAnnounce payload of a BRC-131 frame. */
module BlockAnnounce {
  import opened Bytes
  import opened Buffers
  import opened HashLists

  const FIXED_SIZE := 116

  /** Header, coinbase transaction id, hash count, hashes. */
  function Announcement(header: seq<byte>, coinbaseTxID: Digest, hashes: seq<Digest>): (s: seq<byte>)
    ensures |s| == |header| + 36 + 32 * |hashes|
  {
    header + coinbaseTxID + Be(|hashes| % U32, 4) + Join(hashes)
  }

  method EncodeBlockAnnounce(header: seq<byte>, coinbaseTxID: Digest, hashes: seq<Digest>) returns (buf: array<byte>)
    requires |header| == 80
    ensures fresh(buf) && buf[..] == Announcement(header, coinbaseTxID, hashes)
  {
    hide Wrote;
    hide Be;
    hide Join;
    buf := new byte[FIXED_SIZE + |hashes| * 32];
    ghost var s0 := buf[..];
    PutFixed(buf, header, coinbaseTxID, |hashes|);
    ghost var s1, front := buf[..], header + coinbaseTxID + Be(|hashes| % U32, 4);
    PutHashes(buf, hashes);
    WroteThen(s0, s1, buf[..], 0, front, Join(hashes));
    ItemsPrint(hashes);
    WroteWhole(s0, buf[..], front + Join(hashes));
  }

  method PutFixed(buf: array<byte>, header: seq<byte>, coinbaseTxID: Digest, n: nat)
    requires |header| == 80 && buf.Length >= FIXED_SIZE
    modifies buf
    ensures Wrote(old(buf[..]), buf[..], 0, header + coinbaseTxID + Be(n % U32, 4))
  {
    hide Wrote;
    hide Be;
    ghost var s0 := buf[..];
    var _ := Put(buf, 0, header);
    ghost var s1 := buf[..];
    var _ := Put(buf, 80, coinbaseTxID);
    ghost var s2, ids := buf[..], header + coinbaseTxID;
    WroteThen(s0, s1, s2, 0, header, coinbaseTxID);
    var _ := Put(buf, 112, Be(n % U32, 4));
    WroteThen(s0, s2, buf[..], 0, ids, Be(n % U32, 4));
  }

  method PutHashes(buf: array<byte>, hashes: seq<Digest>)
    requires buf.Length == FIXED_SIZE + |hashes| * 32
    modifies buf
    ensures Wrote(old(buf[..]), buf[..], FIXED_SIZE, Join(hashes))
  {
    hide Wrote;
    hide Join;
    ghost var s0 := buf[..];
    WroteNothing(s0, FIXED_SIZE);
    NothingJoined();
    for i := 0 to |hashes|
      invariant |Join(hashes[..i])| == i * 32
      invariant Wrote(s0, buf[..], FIXED_SIZE, Join(hashes[..i]))
    {
      ghost var before, done := buf[..], Join(hashes[..i]);
      var _ := Put(buf, FIXED_SIZE + i * 32, hashes[i]);
      WroteThen(s0, before, buf[..], FIXED_SIZE, done, hashes[i]);
      JoinMore(hashes[..i], hashes[i]);
      assert hashes[..i] + [hashes[i]] == hashes[..i + 1];
    }
    assert hashes[..|hashes|] == hashes;
  }

  lemma NothingJoined()
    ensures Join([]) == []
  {
  }

  /** The hashes a receiver finds behind the fixed fields. */
  function HashesIn(s: seq<byte>): seq<Digest> {
    if |s| < FIXED_SIZE || (|s| - FIXED_SIZE) % 32 != 0 then [] else Split(s[FIXED_SIZE..])
  }

  lemma {:induction false} Fields(header: seq<byte>, coinbaseTxID: Digest, hashes: seq<Digest>)
    requires |header| == 80
    ensures var s := Announcement(header, coinbaseTxID, hashes);
            && |s| == FIXED_SIZE + 32 * |hashes|
            && s[..80] == header && s[80..112] == coinbaseTxID
            && s[112..116] == Be(|hashes| % U32, 4) && s[FIXED_SIZE..] == Join(hashes)
  {
    hide Be;
    hide Join;
  }

  /** The fields a receiver finds at the fixed offsets are the ones that were announced, for every list
      whose length the 32-bit count can hold. */
  lemma {:induction false} AnnouncementUndone(header: seq<byte>, coinbaseTxID: Digest, hashes: seq<Digest>)
    requires |header| == 80 && |hashes| < U32
    ensures var s := Announcement(header, coinbaseTxID, hashes);
            && |s| == FIXED_SIZE + 32 * FromBe(s[112..116])
            && s[..80] == header && s[80..112] == coinbaseTxID && HashesIn(s) == hashes
  {
    hide Announcement;
    hide Be;
    hide FromBe;
    hide Join;
    hide Split;
    Fields(header, coinbaseTxID, hashes);
    Be32Undone(|hashes|);
    JoinUndone(hashes);
  }
}
