/** internal/blockhdr: the in-place nonce search.  The proof-of-work gate is a parameter. */
module BlockHdr {
  import opened Bytes
  import opened Buffers

  const LEN := 80
  const BITS_REGTEST := 0x207fffff

  /** pow.CheckHeader(hdr, nil): any predicate of the header bytes. */
  type Gate = seq<byte> -> bool

  /** hdr with its compact difficulty set. */
  method SetBits(hdr: array<byte>, bits: u32)
    requires hdr.Length >= 76
    modifies hdr
    ensures Wrote(old(hdr[..]), hdr[..], 72, Le(bits, 4))
  {
    var _ := Put(hdr, 72, Le(bits, 4));
  }

  /** hdr with its nonce set: bytes 76 to 79 and no others. */
  function WithNonce(hdr: seq<byte>, nonce: u32): (h: seq<byte>)
    requires |hdr| >= LEN
    ensures |h| == |hdr| && h[..76] == hdr[..76] && h[80..] == hdr[80..] && h[76..80] == Le(nonce, 4)
  {
    hdr[..76] + Le(nonce, 4) + hdr[80..]
  }

  /** The i-th nonce tried: the search is cyclic from start. */
  function Tried(start: u32, i: nat): u32 {
    (start + i) % U32
  }

  lemma {:induction false} EveryNonceTried(start: u32, nonce: u32)
    ensures exists i :: 0 <= i < U32 && Tried(start, i) == nonce
  {
    var i := if nonce >= start then nonce - start else nonce + U32 - start;
    assert Tried(start, i) == nonce;
  }

  lemma WithNonceAgain(hdr: seq<byte>, h: seq<byte>, m: u32, n: u32)
    requires |hdr| >= LEN && (h == hdr || h == WithNonce(hdr, m)) && |h| == |hdr|
    ensures h[..76] + Le(n, 4) + h[80..] == WithNonce(hdr, n)
  {
  }

  /** The nonce of h is number `tries` of the search from start, the first that passes, or the last of all. */
  ghost predicate Ground(gate: Gate, h: seq<byte>, start: u32, tries: nat) {
    && |h| >= LEN && tries < U32 && h == WithNonce(h, Tried(start, tries))
    && (forall j :: 0 <= j < tries ==> !gate(WithNonce(h, Tried(start, j))))
    && (gate(h) || tries == U32 - 1)
  }

  /** A ground header passes exactly when some nonce does. */
  lemma {:induction false} GroundPasses(gate: Gate, h: seq<byte>, start: u32, tries: nat)
    requires Ground(gate, h, start, tries)
    ensures gate(h) <==> exists nonce: u32 :: gate(WithNonce(h, nonce))
  {
    hide WithNonce;
    if gate(h) {
      assert gate(WithNonce(h, Tried(start, tries)));
    } else {
      forall nonce: u32
        ensures !gate(WithNonce(h, nonce))
      {
        EveryNonceTried(start, nonce);
        var i :| 0 <= i < U32 && Tried(start, i) == nonce;
      }
    }
  }

  lemma {:induction false} NotEarlier(gate: Gate, h: seq<byte>, g: seq<byte>, start: u32, m: nat, n: nat)
    requires Ground(gate, h, start, m) && Ground(gate, g, start, n)
    requires |h| == |g| && h[..76] == g[..76] && h[80..] == g[80..]
    ensures m >= n
  {
    assert WithNonce(h, Tried(start, m)) == WithNonce(g, Tried(start, m));
  }

  /** Front, start and gate determine the ground header. */
  lemma {:induction false} GroundOnce(gate: Gate, h: seq<byte>, g: seq<byte>, start: u32, m: nat, n: nat)
    requires Ground(gate, h, start, m) && Ground(gate, g, start, n)
    requires |h| == |g| && h[..76] == g[..76] && h[80..] == g[80..]
    ensures h == g && m == n
  {
    NotEarlier(gate, h, g, start, m, n);
    NotEarlier(gate, g, h, start, n, m);
    assert WithNonce(h, Tried(start, m)) == WithNonce(g, Tried(start, m));
  }

  /** A ground header, by offset: its nonce is start + tries modulo 2^32, and no nonce between start and it,
      going up with wrap-around, passes. */
  lemma {:induction false} GroundBytes(gate: Gate, h: seq<byte>, start: u32, tries: nat, nonce: u32)
    requires Ground(gate, h, start, tries)
    ensures h[76..80] == Le((start + tries) % 0x1_0000_0000, 4)
    ensures (nonce - start) % 0x1_0000_0000 < tries ==> !gate(h[..76] + Le(nonce, 4) + h[80..])
  {
    hide Le;
    var j := (nonce - start) % 0x1_0000_0000;
    assert Tried(start, j) == nonce;
    assert h[76..80] == WithNonce(h, Tried(start, tries))[76..80];
    if j < tries {
      assert !gate(WithNonce(h, Tried(start, j)));
    }
  }

  /** The header ends with the first passing nonce in cyclic order from start, or with the last one
      tried when all 2^32 fail; it passes the gate exactly when some nonce does. */
  method Grind(sha: Sha, gate: Gate, hdr: array<byte>, start: u32) returns (hash: Digest, ghost tries: nat)
    requires hdr.Length >= LEN
    modifies hdr
    ensures tries < U32 && hdr[..] == WithNonce(old(hdr[..]), Tried(start, tries))
    ensures forall j :: 0 <= j < tries ==> !gate(WithNonce(old(hdr[..]), Tried(start, j)))
    ensures gate(hdr[..]) || tries == U32 - 1
    ensures gate(hdr[..]) <==> exists nonce: u32 :: gate(WithNonce(old(hdr[..]), nonce))
    ensures Ground(gate, hdr[..], start, tries)
    ensures hash == Sha256d(sha, hdr[..])
  {
    hide WithNonce;
    hide Tried;
    hide Le;
    hide Ground;
    var nonce: u32 := start;
    ghost var hdr0 := hdr[..];
    tries := 0;
    FirstTried(start);
    for i := 0 to U32
      invariant nonce == Tried(start, i) && |hdr0| == hdr.Length
      invariant i == 0 ==> hdr[..] == hdr0
      invariant i > 0 ==> tries == i - 1 && hdr[..] == WithNonce(hdr0, Tried(start, i - 1))
      invariant forall j :: 0 <= j < i ==> !gate(WithNonce(hdr0, Tried(start, j)))
    {
      WithNonceAgain(hdr0, hdr[..], Tried(start, if i > 0 then i - 1 else 0), nonce);
      PutNonce(hdr, nonce);
      tries := i;
      if gate(hdr[..]) {
        break;
      }
      NextTried(start, i);
      nonce := (nonce + 1) % U32;
    }
    SearchDone(gate, hdr0, hdr[..], start, tries);
    hash := Sha256d(sha, hdr[..]);
  }

  lemma FirstTried(start: u32)
    ensures Tried(start, 0) == start
  {
  }

  lemma NextTried(start: u32, i: nat)
    ensures Tried(start, i + 1) == (Tried(start, i) + 1) % U32
  {
  }

  /** What the search has established about the header it leaves. */
  lemma {:induction false} SearchDone(gate: Gate, hdr: seq<byte>, h: seq<byte>, start: u32, tries: nat)
    requires |hdr| >= LEN && tries < U32 && h == WithNonce(hdr, Tried(start, tries))
    requires forall j :: 0 <= j < tries ==> !gate(WithNonce(hdr, Tried(start, j)))
    requires gate(h) || tries == U32 - 1
    ensures Ground(gate, h, start, tries)
    ensures gate(h) <==> exists nonce: u32 :: gate(WithNonce(hdr, nonce))
  {
    hide WithNonce;
    hide Tried;
    forall nonce: u32
      ensures WithNonce(h, nonce) == WithNonce(hdr, nonce)
    {
      SameBase(hdr, h, Tried(start, tries), nonce);
    }
    GroundPasses(gate, h, start, tries);
    if gate(h) {
      assert gate(WithNonce(hdr, Tried(start, tries)));
    }
  }

  lemma SameBase(hdr: seq<byte>, h: seq<byte>, m: u32, n: u32)
    requires |hdr| >= LEN && h == WithNonce(hdr, m)
    ensures WithNonce(h, n) == WithNonce(hdr, n)
  {
  }

  method PutNonce(hdr: array<byte>, nonce: u32)
    requires hdr.Length >= LEN
    modifies hdr
    ensures hdr[..] == old(hdr[..])[..76] + Le(nonce, 4) + old(hdr[..])[80..]
  {
    var _ := Put(hdr, 76, Le(nonce, 4));
  }
}
