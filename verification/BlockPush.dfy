/** cmd/send-block-push: BRC-144 block objects, and the chain they form across write failures. */
module BlockPush {
  import opened Bytes
  import opened Buffers
  import opened WireFormat
  import opened ObjFmt
  import opened TxBuilder
  import opened BlockHdr
  import opened HashLists

  /** Header bytes 0 to 75: version 2, previous hash, Merkle stand-in, time, regtest bits. */
  function HeaderFront(prevHash: Digest, merkle: Digest, height: u64): (h: seq<byte>)
    ensures |h| == 76
  {
    Le(2, 4) + prevHash + merkle + Le((1700000000 + height) % U32, 4) + Le(BITS_REGTEST, 4)
  }

  method FillHeader(hdr: array<byte>, prevHash: Digest, merkle: Digest, height: u64)
    requires hdr.Length == LEN
    modifies hdr
    ensures hdr[..76] == HeaderFront(prevHash, merkle, height)
  {
    hide Wrote;
    hide Le;
    ghost var s0 := hdr[..];
    var _ := Put(hdr, 0, Le(2, 4));
    ghost var s1 := hdr[..];
    var _ := Put(hdr, 4, prevHash);
    ghost var s2 := hdr[..];
    WroteThen(s0, s1, s2, 0, Le(2, 4), prevHash);
    var _ := Put(hdr, 36, merkle);
    ghost var s3, p3 := hdr[..], Le(2, 4) + prevHash;
    WroteThen(s0, s2, s3, 0, p3, merkle);
    var _ := Put(hdr, 68, Le((1700000000 + height) % U32, 4));
    ghost var s4, p4 := hdr[..], p3 + merkle;
    WroteThen(s0, s3, s4, 0, p4, Le((1700000000 + height) % U32, 4));
    SetBits(hdr, BITS_REGTEST);
    WroteThen(s0, s4, hdr[..], 0, p4 + Le((1700000000 + height) % U32, 4), Le(BITS_REGTEST, 4));
    WroteWhole(s0, hdr[..], HeaderFront(prevHash, merkle, height));
  }

  function AppendU64(b: seq<byte>, v: nat): seq<byte> {
    b + Be(v, 8)
  }

  // ---------------------------------------------------------------- the printed block

  function BlockTail(coinbase: seq<byte>, height: nat, bump: seq<byte>): seq<byte> {
    coinbase + (Be(height, 8) + (Be(|bump|, 8) + bump))
  }

  function BlockBody(roots: seq<Digest>, tail: seq<byte>): seq<byte> {
    Be(|roots|, 8) + Join(roots) + tail
  }

  function BlockLayout(header: seq<byte>, txCount: nat, size: nat, body: seq<byte>): seq<byte> {
    header + (Be(txCount, 8) + (Be(size, 8) + body))
  }

  lemma {:induction false} TailPrints(coinbase: Value, height: nat, bump: seq<byte>)
    requires Fits(TX, coinbase) && |bump| < U64
    ensures var v := Pair(coinbase, Pair(Raw(Be(height, 8)), Raw(bump)));
            Fits(BLOCK_TAIL, v) && Print(BLOCK_TAIL, v) == BlockTail(Print(TX, coinbase), height, bump)
  {
    var f, v := Then(Fixed(8), Blob(Be8)), Pair(Raw(Be(height, 8)), Raw(bump));
    assert Fits(f, v) && Print(f, v) == Be(height, 8) + (Be(|bump|, 8) + bump);
  }

  lemma {:induction false} BodyPrints(roots: seq<Digest>, tail: Value)
    requires |roots| < U64 && Fits(BLOCK_TAIL, tail)
    ensures var v := Pair(List(Items(roots)), tail);
            Fits(BLOCK_BODY, v) && Print(BLOCK_BODY, v) == BlockBody(roots, Print(BLOCK_TAIL, tail))
  {
    NodesPrint(roots);
  }

  lemma {:induction false} FrontPrints(header: seq<byte>, txCount: nat, size: nat, body: Value)
    requires |header| == 80 && Fits(BLOCK_BODY, body)
    ensures var v := Pair(Raw(header), Pair(Raw(Be(txCount, 8)), Pair(Raw(Be(size, 8)), body)));
            Fits(BLOCK, v) && Print(BLOCK, v) == BlockLayout(header, txCount, size, Print(BLOCK_BODY, body))
  {
    var f, v := Then(Fixed(8), BLOCK_BODY), Pair(Raw(Be(size, 8)), body);
    assert Fits(f, v) && Print(f, v) == Be(size, 8) + Print(BLOCK_BODY, body);
    assert Fits(Then(Fixed(8), f), Pair(Raw(Be(txCount, 8)), v));
  }

  lemma {:induction false} BlockPrints(header: seq<byte>, txCount: nat, size: nat, roots: seq<Digest>,
                                       coinbase: Value, height: nat, bump: seq<byte>)
    requires |header| == 80 && |roots| < U64 && Fits(TX, coinbase) && |bump| < U64
    ensures var v := Block(header, txCount, size, Items(roots), coinbase, height, bump).Value();
            && Fits(BLOCK, v)
            && Print(BLOCK, v) == BlockLayout(header, txCount, size, BlockBody(roots, BlockTail(Print(TX, coinbase), height, bump)))
  {
    hide Print;
    hide Fits;
    TailPrints(coinbase, height, bump);
    var tail := Pair(coinbase, Pair(Raw(Be(height, 8)), Raw(bump)));
    BodyPrints(roots, tail);
    FrontPrints(header, txCount, size, Pair(List(Items(roots)), tail));
  }

  /** Appending the nine fields one after the other gives the nested layout. */
  lemma {:induction false} Appended(header: seq<byte>, txCount: nat, size: nat, roots: seq<Digest>,
                                    coinbase: seq<byte>, height: nat, bump: seq<byte>)
    ensures header + Be(txCount, 8) + Be(size, 8) + Be(|roots|, 8) + Join(roots) + coinbase + Be(height, 8) + Be(|bump|, 8) + bump
         == BlockLayout(header, txCount, size, BlockBody(roots, BlockTail(coinbase, height, bump)))
  {
    hide Be;
    hide Join;
    var a, b, c, d := header, Be(txCount, 8), Be(size, 8), Be(|roots|, 8);
    var e, f, g, h := Join(roots), coinbase, Be(height, 8), Be(|bump|, 8);
    var p := a + b + c + d + e;
    Assoc(p + f + g, h, bump);
    Assoc(p + f, g, h + bump);
    Assoc(p, f, g + (h + bump));
    var tail := f + (g + (h + bump));
    Assoc(a + b + c, d, e);
    Assoc(a + b + c, d + e, tail);
    Assoc(a + b, c, d + e + tail);
    Assoc(a, b, c + (d + e + tail));
  }

  // ---------------------------------------------------------------- buildBlock

  /** The subtree roots a word stream yields. */
  function RootsAt(words: nat -> u64, pos: nat, subtrees: nat): (hs: seq<Digest>)
    ensures |hs| == subtrees
  {
    Split(RandBytes(words, pos, subtrees * 32))
  }

  /** -subtrees is at least 1; the byte lengths are Go ints.  b holds the fields of the object built. */
  method BuildBlock(sha: Sha, gate: Gate, rng: Rng, txb: Builder, subtrees: nat, coinbaseSize: int, bumpSize: nat,
                    height: u64, prevHash: Digest)
    returns (ok: bool, obj: seq<byte>, hash: Digest, cbTxID: Digest, ghost b: Block)
    requires rng != txb.rng
    requires 1 <= subtrees < 0x200_0000_0000_0000 && bumpSize < 0x4000_0000_0000_0000
    modifies rng, txb.rng
    ensures ok <==> MIN_RAW_SIZE <= coinbaseSize <= MIN_RAW_SIZE + MAX_SLACK
    ensures ok ==>
              var roots := RootsAt(rng.words, old(rng.pos), subtrees);
              var coinbase := RawAt(txb.rng.words, old(txb.rng.pos), coinbaseSize);
              var bump := RandBytes(rng.words, old(rng.pos) + WordsFor(subtrees * 32), bumpSize);
              && |obj| >= LEN
              && b == Block(obj[..LEN], subtrees * 1000 + 1, |obj|, Items(roots), coinbase, height, bump)
              && Fits(BLOCK, b.Value()) && obj == Print(BLOCK, b.Value())
              && obj[..76] == HeaderFront(prevHash, Sha256d(sha, Join(roots)), height)
              && IsGround(gate, obj[..LEN], height)
              && hash == Sha256d(sha, obj[..LEN])
              && cbTxID == TxId(sha, coinbase)
              && rng.pos == old(rng.pos) + WordsFor(subtrees * 32) + WordsFor(bumpSize)
              && txb.rng.pos == old(txb.rng.pos) + RawWords(coinbaseSize)
  {
    hide Print;
    hide Fits;
    hide RandBytes;
    hide Split;
    hide Join;
    hide Items;
    hide RawAt;
    hide RawWords;
    hide HeaderFront;
    hide IsGround;
    hide TxId;
    ok, obj, hash, cbTxID, b := false, [], ZERO, ZERO, Block([], 0, 0, [], Raw([]), 0, []);
    var roots := RandomBytes(rng, subtrees * 32);
    SplitJoin(roots);
    var hdr, blockHash := GrindHeader(sha, gate, prevHash, Sha256d(sha, roots), height);
    var built, coinbase, id, v := BuildCoinbase(sha, txb, coinbaseSize);
    if !built {
      return;
    }
    var bump := RandomBytes(rng, bumpSize);
    ok, hash, cbTxID := true, blockHash, id;
    obj, b := Assemble(hdr, subtrees, roots, coinbase, v, height, bump);
  }

  /** Lines 176-183: the inline coinbase and its transaction id. */
  method BuildCoinbase(sha: Sha, txb: Builder, size: int)
    returns (ok: bool, coinbase: seq<byte>, id: Digest, ghost v: Value)
    modifies txb.rng
    ensures ok <==> MIN_RAW_SIZE <= size <= MIN_RAW_SIZE + MAX_SLACK
    ensures ok ==>
              && v == RawAt(txb.rng.words, old(txb.rng.pos), size)
              && Fits(TX, v) && coinbase == Print(TX, v) && id == TxId(sha, v)
              && txb.rng.pos == old(txb.rng.pos) + RawWords(size)
  {
    hide Print;
    hide Fits;
    hide RawAt;
    hide RawWords;
    ok, coinbase, id, v := false, [], ZERO, Raw([]);
    if MIN_RAW_SIZE <= size <= MIN_RAW_SIZE + MAX_SLACK {
      RawIsStandard(txb.rng.words, txb.rng.pos, size);
      v := RawAt(txb.rng.words, txb.rng.pos, size);
    }
    var nil := new byte[0];
    var built := txb.Build(nil, size);
    if built.Err? {
      return;
    }
    coinbase := built.value[..size];
    ok, id := true, Sha256d(sha, coinbase);
  }

  /** Lines 189 to 200. */
  method Assemble(hdr: seq<byte>, subtrees: nat, roots: seq<byte>, coinbase: seq<byte>, ghost coinbaseValue: Value,
                  height: u64, bump: seq<byte>)
    returns (obj: seq<byte>, ghost b: Block)
    requires |hdr| == LEN && |roots| == 32 * subtrees && subtrees < U64 && |bump| < U64
    requires Fits(TX, coinbaseValue) && coinbase == Print(TX, coinbaseValue)
    ensures |obj| >= LEN && obj[..LEN] == hdr
    ensures b == Block(hdr, subtrees * 1000 + 1, |obj|, Items(Split(roots)), coinbaseValue, height, bump)
    ensures Fits(BLOCK, b.Value()) && obj == Print(BLOCK, b.Value())
  {
    hide Print;
    hide Fits;
    hide Split;
    hide Join;
    hide Items;
    hide Be;
    hide BlockLayout;
    hide BlockBody;
    hide BlockTail;
    var total := BLOCK_PREFIX_SIZE + |roots| + |coinbase| + 16 + |bump|;
    obj := AppendFields(hdr, subtrees * 1000 + 1, total, subtrees, roots, coinbase, height, bump);
    b := Block(hdr, subtrees * 1000 + 1, total, Items(Split(roots)), coinbaseValue, height, bump);
    BlockPrints(hdr, subtrees * 1000 + 1, total, Split(roots), coinbaseValue, height, bump);
  }

  method AppendFields(hdr: seq<byte>, txCount: nat, total: nat, subtrees: nat, roots: seq<byte>, coinbase: seq<byte>,
                      height: nat, bump: seq<byte>)
    returns (obj: seq<byte>)
    requires |hdr| == LEN && |roots| == 32 * subtrees
    ensures obj == BlockLayout(hdr, txCount, total, BlockBody(Split(roots), BlockTail(coinbase, height, bump)))
    ensures |obj| == BLOCK_PREFIX_SIZE + |roots| + |coinbase| + 16 + |bump| && obj[..LEN] == hdr
  {
    hide Split;
    hide Join;
    hide Be;
    hide BlockLayout;
    hide BlockBody;
    hide BlockTail;
    obj := AppendU64(hdr, txCount);
    obj := AppendU64(obj, total);
    obj := AppendU64(obj, subtrees);
    obj := obj + roots;
    obj := obj + coinbase;
    obj := AppendU64(obj, height);
    obj := AppendU64(obj, |bump|);
    obj := obj + bump;
    SplitJoin(roots);
    Appended(hdr, txCount, total, Split(roots), coinbase, height, bump);
  }

  lemma {:induction false} RawIsStandard(words: nat -> u64, pos: nat, size: nat)
    requires MIN_RAW_SIZE <= size <= MIN_RAW_SIZE + MAX_SLACK
    ensures Fits(TX, RawAt(words, pos, size)) && ToStandard(RawAt(words, pos, size)) == RawAt(words, pos, size)
  {
    RawAtSize(words, pos, size);
  }

  /** make and fillRand. */
  method RandomBytes(rng: Rng, n: nat) returns (s: seq<byte>)
    modifies rng
    ensures s == RandBytes(rng.words, old(rng.pos), n) && rng.pos == old(rng.pos) + WordsFor(n)
  {
    var buf := new byte[n];
    ghost var s0 := buf[..];
    var _ := FillRand(rng, buf, 0, n);
    WroteWhole(s0, buf[..], RandBytes(rng.words, old(rng.pos), n));
    s := buf[..];
  }

  /** The nonce is the first from the height on, in cyclic order, that passes the gate, or the last of all. */
  ghost predicate IsGround(gate: Gate, header: seq<byte>, height: u64) {
    exists tries :: Ground(gate, header, height % U32, tries)
  }

  /** Lines 161-173: the header, ground from the block height on. */
  method GrindHeader(sha: Sha, gate: Gate, prevHash: Digest, merkle: Digest, height: u64)
    returns (header: seq<byte>, hash: Digest)
    ensures |header| == LEN && header[..76] == HeaderFront(prevHash, merkle, height)
    ensures IsGround(gate, header, height)
    ensures hash == Sha256d(sha, header)
  {
    var hdr := new byte[LEN];
    FillHeader(hdr, prevHash, merkle, height);
    ghost var front := hdr[..76];
    ghost var tries;
    hash, tries := Grind(sha, gate, hdr, height % U32);
    header := hdr[..];
    assert header[..76] == front;
  }

  // ---------------------------------------------------------------- the send loop of main

  /** What the outside does to one round: whether dialling (if needed) succeeds before the context
      ends, whether the write succeeds, and whether the context has ended when the round is over. */
  datatype Round = Round(dialed: bool, written: bool, stop: bool)

  function HeightAt(heightStart: int, i: nat): u64 {
    (heightStart + i) % U64
  }

  /** The block hash of an object: SHA256d of its header. */
  function HashOf(sha: Sha, obj: seq<byte>): Digest
    requires |obj| >= LEN
  {
    Sha256d(sha, obj[..LEN])
  }

  /** A whole block object of the given height on top of a previous hash, its header ground. */
  ghost predicate IsBlock(sha: Sha, gate: Gate, obj: seq<byte>, b: Block, subtrees: nat, height: u64,
                          prevHash: Digest) {
    && Fits(BLOCK, b.Value()) && obj == Print(BLOCK, b.Value())
    && |obj| >= LEN && b.header == obj[..LEN]
    && b.header[..76] == HeaderFront(prevHash, Sha256d(sha, PrintMany(Fixed(32), b.roots)), height)
    && IsGround(gate, b.header, height)
    && b.size == |obj| && b.height == height
    && |b.roots| == subtrees && b.txCount == subtrees * 1000 + 1
  }

  /** Consecutive heights from heightStart; each block on top of the hash of the one before it. */
  ghost predicate IsChain(sha: Sha, gate: Gate, sent: seq<seq<byte>>, bs: seq<Block>, subtrees: nat, heightStart: int) {
    && |bs| == |sent|
    && forall i :: 0 <= i < |sent| ==>
         && |sent[i]| >= LEN
         && IsBlock(sha, gate, sent[i], bs[i], subtrees, HeightAt(heightStart, i), PrevHash(sha, sent, i))
  }

  /** The hash block i is built on: zero, then the hash of the last object written. */
  function PrevHash(sha: Sha, sent: seq<seq<byte>>, i: nat): Digest
    requires i <= |sent|
  {
    if i == 0 || |sent[i - 1]| < LEN then ZERO else HashOf(sha, sent[i - 1])
  }

  lemma NoBlocks(sha: Sha, gate: Gate, subtrees: nat, heightStart: int)
    ensures IsChain(sha, gate, [], [], subtrees, heightStart)
  {
  }

  lemma {:induction false} ChainGrows(sha: Sha, gate: Gate, sent: seq<seq<byte>>, bs: seq<Block>,
                                      subtrees: nat, heightStart: int,
                                      obj: seq<byte>, b: Block)
    requires IsChain(sha, gate, sent, bs, subtrees, heightStart) && |obj| >= LEN
    requires IsBlock(sha, gate, obj, b, subtrees, HeightAt(heightStart, |sent|), PrevHash(sha, sent, |sent|))
    ensures IsChain(sha, gate, sent + [obj], bs + [b], subtrees, heightStart)
  {
    hide IsBlock;
    hide HeightAt;
    hide PrevHash;
    var more, bs' := sent + [obj], bs + [b];
    forall i | 0 <= i < |more|
      ensures |more[i]| >= LEN && IsBlock(sha, gate, more[i], bs'[i], subtrees, HeightAt(heightStart, i), PrevHash(sha, more, i))
    {
      SamePrev(sha, sent, obj, i);
      if i < |sent| {
        assert more[i] == sent[i] && bs'[i] == bs[i];
      }
    }
  }

  lemma {:induction false} SamePrev(sha: Sha, sent: seq<seq<byte>>, obj: seq<byte>, i: nat)
    requires i <= |sent|
    ensures PrevHash(sha, sent + [obj], i) == PrevHash(sha, sent, i)
  {
    hide HashOf;
  }

  lemma {:induction false} HeaderPrev(prevHash: Digest, merkle: Digest, height: u64)
    ensures HeaderFront(prevHash, merkle, height)[4..36] == prevHash
  {
    hide Le;
  }

  lemma {:induction false} BlockPrev(sha: Sha, gate: Gate, obj: seq<byte>, b: Block, subtrees: nat,
                                     height: u64, prevHash: Digest)
    requires IsBlock(sha, gate, obj, b, subtrees, height, prevHash)
    ensures |obj| >= LEN && obj[4..36] == prevHash
  {
    HeaderPrev(prevHash, Sha256d(sha, PrintMany(Fixed(32), b.roots)), height);
    hide Print;
    hide PrintMany;
    hide Fits;
    hide HeaderFront;
    hide WithNonce;
    assert obj[4..36] == obj[..LEN][..76][4..36];
  }

  /** In a chain, bytes 4 to 36 of each header are the double hash of the 80 header bytes before it. */
  lemma {:induction false} ChainLinks(sha: Sha, gate: Gate, sent: seq<seq<byte>>, bs: seq<Block>,
                                      subtrees: nat, heightStart: int, i: nat)
    requires IsChain(sha, gate, sent, bs, subtrees, heightStart) && i < |sent|
    ensures |sent[i]| >= LEN
    ensures i > 0 ==> |sent[i - 1]| >= LEN
    ensures sent[i][4..36] == if i == 0 then ZERO else Sha256d(sha, sent[i - 1][..LEN])
  {
    hide IsBlock;
    hide HeightAt;
    BlockPrev(sha, gate, sent[i], bs[i], subtrees, HeightAt(heightStart, i), PrevHash(sha, sent, i));
  }

  lemma LeStep(v: nat, n: nat)
    requires n > 0
    ensures Le(v, n) == [v % 256] + Le(v / 256, n - 1)
  {
  }

  lemma {:induction false} SmallLe()
    ensures Le(2, 4) == [2, 0, 0, 0] && Le(BITS_REGTEST, 4) == [0xFF, 0xFF, 0x7F, 0x20]
  {
    SmallNumbers();
    LeStep(0x207fffff, 4);
    LeStep(0x207fff, 3);
    LeStep(0x207f, 2);
    LeStep(0x20, 1);
    assert Le(0, 0) == [];
    hide Le;
  }

  /** Version 2, previous hash, Merkle stand-in, time and regtest bits, by offset. */
  lemma {:induction false} HeaderBytes(prevHash: Digest, merkle: Digest, height: u64)
    ensures var h := HeaderFront(prevHash, merkle, height);
            && h[0..4] == [2, 0, 0, 0] && h[4..36] == prevHash && h[36..68] == merkle
            && h[68..72] == Le((1700000000 + height) % 0x1_0000_0000, 4) && h[72..76] == [0xFF, 0xFF, 0x7F, 0x20]
  {
    SmallLe();
    hide Le;
  }

  lemma {:induction false} InChain(sha: Sha, gate: Gate, sent: seq<seq<byte>>, bs: seq<Block>, subtrees: nat,
                                   heightStart: int, i: nat)
    requires IsChain(sha, gate, sent, bs, subtrees, heightStart) && i < |sent|
    ensures var b, height := bs[i], (heightStart + i) % 0x1_0000_0000_0000_0000;
            && Fits(BLOCK, b.Value()) && sent[i] == Print(BLOCK, b.Value())
            && b.header[..76] == HeaderFront(PrevHash(sha, sent, i), Sha256d(sha, PrintMany(Fixed(32), b.roots)), height)
            && |b.roots| == subtrees && b.txCount == subtrees * 1000 + 1 && b.size == |sent[i]| && b.height == height
            && |sent[i]| >= LEN && b.header == sent[i][..LEN]
  {
    hide Print;
    hide PrintMany;
    hide Fits;
    hide HeaderFront;
    hide IsGround;
    hide PrevHash;
    assert IsBlock(sha, gate, sent[i], bs[i], subtrees, HeightAt(heightStart, i), PrevHash(sha, sent, i));
  }

  /** In a chain the heights count up from -height-start, in each block and in its eight height bytes behind
      the coinbase; SizeInBytes is the length of the object. */
  lemma {:induction false} ChainHeights(sha: Sha, gate: Gate, sent: seq<seq<byte>>, bs: seq<Block>,
                                        subtrees: nat, heightStart: int, i: nat)
    requires IsChain(sha, gate, sent, bs, subtrees, heightStart) && i < |sent|
    ensures bs[i].height == (heightStart + i) % 0x1_0000_0000_0000_0000
    ensures Fits(TX, bs[i].coinbase) && |sent[i]| >= 104
    ensures var n := 104 + 32 * subtrees + |Print(TX, bs[i].coinbase)|;
            && n + 16 <= |sent[i]| && sent[i][104 + 32 * subtrees..n] == Print(TX, bs[i].coinbase)
            && sent[i][n..n + 8] == Be((heightStart + i) % 0x1_0000_0000_0000_0000, 8)
    ensures sent[i][80..88] == Be(subtrees * 1000 + 1, 8) && sent[i][88..96] == Be(|sent[i]|, 8)
    ensures sent[i][96..104] == Be(subtrees, 8)
  {
    hide Print;
    hide PrintMany;
    hide Fits;
    hide Be;
    hide HeaderFront;
    hide PrevHash;
    var b := bs[i];
    hide IsChain;
    InChain(sha, gate, sent, bs, subtrees, heightStart, i);
    BlockParts(b);
    BlockFrontBytes(b, 104 + 32 * |b.roots|);
    BlockTailBytes(b, 104 + 32 * subtrees, 104 + 32 * subtrees + |Print(TX, b.coinbase)|);
  }

  lemma {:induction false} HeaderInObject(s: seq<byte>, front: seq<byte>)
    requires |front| == 76 && |s| >= 80 && s[..80][..76] == front
    ensures s[0..4] == front[0..4] && s[4..36] == front[4..36] && s[36..68] == front[36..68]
    ensures s[68..72] == front[68..72] && s[72..76] == front[72..76]
  {
    assert s[..76] == front;
    SliceOfPrefix(s, 76, 0, 4);
    SliceOfPrefix(s, 76, 4, 36);
    SliceOfPrefix(s, 76, 36, 68);
    SliceOfPrefix(s, 76, 68, 72);
    SliceOfPrefix(s, 76, 72, 76);
  }

  lemma {:induction false} RootsInObject(b: Block)
    requires Fits(BLOCK, b.Value())
    ensures var s := Print(BLOCK, b.Value());
            |s| >= 104 + 32 * |b.roots| && s[104..104 + 32 * |b.roots|] == PrintMany(Fixed(32), b.roots)
  {
    hide Print;
    hide PrintMany;
    hide Fits;
    BlockFrontBytes(b, 104 + 32 * |b.roots|);
  }

  /** The object starts with a header of version 2, the double hash of the roots behind the counts as its Merkle
      root, a time that follows the height, and the regtest bits. */
  predicate HasHeader(sha: Sha, s: seq<byte>, subtrees: nat, height: nat) {
    && |s| >= 104 + 32 * subtrees
    && s[0..4] == [2, 0, 0, 0] && s[36..68] == sha(sha(s[104..104 + 32 * subtrees]))
    && s[68..72] == Le((1700000000 + height) % 0x1_0000_0000, 4) && s[72..76] == [0xFF, 0xFF, 0x7F, 0x20]
  }

  lemma {:induction false} ObjectHeader(sha: Sha, s: seq<byte>, roots: seq<byte>, subtrees: nat,
                                        prevHash: Digest, height: u64)
    requires |s| >= 104 + 32 * subtrees && s[104..104 + 32 * subtrees] == roots
    requires s[..80][..76] == HeaderFront(prevHash, Sha256d(sha, roots), height)
    ensures HasHeader(sha, s, subtrees, height)
  {
    hide Le;
    HeaderBytes(prevHash, Sha256d(sha, roots), height);
    HeaderInObject(s, HeaderFront(prevHash, Sha256d(sha, roots), height));
  }

  lemma {:induction false} BlockHasHeader(sha: Sha, gate: Gate, s: seq<byte>, b: Block, subtrees: nat,
                                          height: u64, prevHash: Digest)
    requires IsBlock(sha, gate, s, b, subtrees, height, prevHash)
    ensures HasHeader(sha, s, subtrees, height)
  {
    hide Print;
    hide PrintMany;
    hide Fits;
    hide IsGround;
    hide HeaderFront;
    hide HasHeader;
    RootsInObject(b);
    ObjectHeader(sha, s, PrintMany(Fixed(32), b.roots), subtrees, prevHash, height);
  }

  /** ... and the headers say so, with these heights. */
  lemma {:induction false} ChainHeaders(sha: Sha, gate: Gate, sent: seq<seq<byte>>, bs: seq<Block>,
                                        subtrees: nat, heightStart: int, i: nat)
    requires IsChain(sha, gate, sent, bs, subtrees, heightStart) && i < |sent|
    ensures HasHeader(sha, sent[i], subtrees, (heightStart + i) % 0x1_0000_0000_0000_0000)
  {
    hide IsBlock;
    hide HasHeader;
    BlockHasHeader(sha, gate, sent[i], bs[i], subtrees, HeightAt(heightStart, i), PrevHash(sha, sent, i));
  }

  lemma {:induction false} NonceOf(gate: Gate, s: seq<byte>, x: int, tries: nat, nonce: u32)
    requires |s| >= 80 && Ground(gate, s[..80], x % U64 % U32, tries)
    ensures tries < 0x1_0000_0000 && (gate(s[..80]) || tries == 0xFFFF_FFFF)
    ensures s[76..80] == Le((x + tries) % 0x1_0000_0000, 4)
    ensures (nonce - x) % 0x1_0000_0000 < tries ==> !gate(s[..76] + Le(nonce, 4))
  {
    GroundBytes(gate, s[..80], x % U64 % U32, tries, nonce);
    hide Ground;
    hide Le;
    HeightModulo(x, tries);
    var n: int := nonce;
    HeightModulo(x, -n);
    SliceOfPrefix(s, 80, 76, 80);
    assert s[..80][..76] + Le(nonce, 4) + s[..80][80..] == s[..76] + Le(nonce, 4);
  }

  /** The nonce of s is number `tries` from x on, going up with wrap-around; none before it passes the gate with
      the rest of the header, and it does, or it is the last of all. */
  ghost predicate FirstPassing(gate: Gate, s: seq<byte>, x: int, tries: nat) {
    && |s| >= 80 && tries < 0x1_0000_0000
    && s[76..80] == Le((x + tries) % 0x1_0000_0000, 4)
    && (gate(s[..80]) || tries == 0xFFFF_FFFF)
    && forall nonce: u32 :: (nonce - x) % 0x1_0000_0000 < tries ==> !gate(s[..76] + Le(nonce, 4))
  }

  lemma {:induction false} GroundIsFirst(gate: Gate, s: seq<byte>, x: int, tries: nat)
    requires |s| >= 80 && Ground(gate, s[..80], x % U64 % U32, tries)
    ensures FirstPassing(gate, s, x, tries)
  {
    hide Ground;
    hide Le;
    NonceOf(gate, s, x, tries, 0);
    forall nonce: u32
      ensures (nonce - x) % 0x1_0000_0000 < tries ==> !gate(s[..76] + Le(nonce, 4))
    {
      NonceOf(gate, s, x, tries, nonce);
    }
  }

  lemma {:induction false} BlockNonce(sha: Sha, gate: Gate, obj: seq<byte>, b: Block, subtrees: nat,
                                      height: u64, x: int, prevHash: Digest)
    returns (tries: nat)
    requires IsBlock(sha, gate, obj, b, subtrees, height, prevHash) && height == x % U64
    ensures FirstPassing(gate, obj, x, tries)
  {
    hide Print;
    hide PrintMany;
    hide Fits;
    hide HeaderFront;
    hide Ground;
    hide FirstPassing;
    tries :| Ground(gate, obj[..80], height % U32, tries);
    GroundIsFirst(gate, obj, x, tries);
  }

  lemma {:induction false} BlockInChain(sha: Sha, gate: Gate, sent: seq<seq<byte>>, bs: seq<Block>,
                                        subtrees: nat, heightStart: int, i: nat)
    returns (obj: seq<byte>, b: Block, height: u64)
    requires IsChain(sha, gate, sent, bs, subtrees, heightStart) && i < |sent|
    ensures obj == sent[i] && height == (heightStart + i) % U64
    ensures IsBlock(sha, gate, obj, b, subtrees, height, PrevHash(sha, sent, i))
  {
    hide IsBlock;
    hide PrevHash;
    obj, b, height := sent[i], bs[i], HeightAt(heightStart, i);
  }

  /** ... and each nonce is the first to pass from the height on. */
  lemma {:induction false} ChainNonce(sha: Sha, gate: Gate, sent: seq<seq<byte>>, bs: seq<Block>,
                                      subtrees: nat, heightStart: int, i: nat)
    returns (tries: nat)
    requires IsChain(sha, gate, sent, bs, subtrees, heightStart) && i < |sent|
    ensures FirstPassing(gate, sent[i], heightStart + i, tries)
  {
    hide *;
    var obj, b, height := BlockInChain(sha, gate, sent, bs, subtrees, heightStart, i);
    tries := BlockNonce(sha, gate, obj, b, subtrees, height, heightStart + i, PrevHash(sha, sent, i));
  }

  lemma MultipleAway(y: int, k: int)
    ensures (y - 0x1_0000_0000 * k) % 0x1_0000_0000 == y % 0x1_0000_0000
  {
  }

  lemma {:induction false} HeightModulo(x: int, d: int)
    ensures (x % U64 % U32 + d) % 0x1_0000_0000 == (x + d) % 0x1_0000_0000
    ensures (-d - x % U64 % U32) % 0x1_0000_0000 == (-d - x) % 0x1_0000_0000
  {
    var a := x % U64;
    var k := 0x1_0000_0000 * (x / U64) + a / U32;
    assert a == x - U64 * (x / U64) && a % U32 == a - U32 * (a / U32);
    assert a % U32 == x - 0x1_0000_0000 * k;
    MultipleAway(x + d, k);
    MultipleAway(-d - x, -k);
  }

  /** How many more blocks the loop writes in the rounds to come, `sent` being written already. */
  function Writes(rounds: seq<Round>, conn: bool, sent: nat, count: int): nat {
    if rounds == [] || (!conn && !rounds[0].dialed) then 0
    else if !rounds[0].written then Writes(rounds[1..], false, sent, count)
    else if (count > 0 && sent + 1 >= count) || rounds[0].stop then 1
    else 1 + Writes(rounds[1..], true, sent + 1, count)
  }

  function Successes(rounds: seq<Round>): nat {
    if rounds == [] then 0 else (if rounds[0].written then 1 else 0) + Successes(rounds[1..])
  }

  /** As long as dialling succeeds and the context lasts, every successful write counts, up to -count. */
  lemma {:induction false} WritesExactly(rounds: seq<Round>, conn: bool, sent: nat, count: int)
    requires forall i :: 0 <= i < |rounds| ==> rounds[i].dialed && !rounds[i].stop
    requires count > 0 ==> sent < count
    ensures Writes(rounds, conn, sent, count)
         == if count > 0 && Successes(rounds) > count - sent then count - sent else Successes(rounds)
  {
    if rounds != [] {
      if !rounds[0].written {
        WritesExactly(rounds[1..], false, sent, count);
      } else if !(count > 0 && sent + 1 >= count) {
        WritesExactly(rounds[1..], true, sent + 1, count);
      }
    }
  }

  /** Round j is reached with no connection: the first one without an initial connection, or after a failed write. */
  predicate NeedsDial(rounds: seq<Round>, conn: bool, j: nat)
    requires j < |rounds|
  {
    if j == 0 then !conn else !rounds[j - 1].written
  }

  /** Round j ends the loop after its write: the context is over or -count is reached. */
  predicate EndsAfter(rounds: seq<Round>, sent: nat, count: int, j: nat)
    requires j < |rounds|
  {
    rounds[j].written && (rounds[j].stop || (count > 0 && sent + Successes(rounds[..j + 1]) >= count))
  }

  /** Round j is gone through, and another may follow. */
  predicate GoesOn(rounds: seq<Round>, conn: bool, sent: nat, count: int, j: nat)
    requires j < |rounds|
  {
    (NeedsDial(rounds, conn, j) ==> rounds[j].dialed) && !EndsAfter(rounds, sent, count, j)
  }

  lemma {:induction false} SuccessesFirst(rounds: seq<Round>, n: nat)
    requires 0 < n <= |rounds|
    ensures Successes(rounds[..n]) == (if rounds[0].written then 1 else 0) + Successes(rounds[1..][..n - 1])
  {
    assert rounds[..n][1..] == rounds[1..][..n - 1];
  }

  /** The rest of the rounds after round 0, seen from there. */
  lemma {:induction false} Shifted(rounds: seq<Round>, conn: bool, sent: nat, count: int, j: nat)
    requires 0 < j < |rounds|
    ensures var w := if rounds[0].written then 1 else 0;
            && NeedsDial(rounds, conn, j) == NeedsDial(rounds[1..], rounds[0].written, j - 1)
            && EndsAfter(rounds, sent, count, j) == EndsAfter(rounds[1..], sent + w, count, j - 1)
  {
    SuccessesFirst(rounds, j + 1);
  }

  lemma {:induction false} RestGoesOn(rounds: seq<Round>, conn: bool, sent: nat, sent': nat, count: int, n: nat)
    requires 0 < n <= |rounds| && forall j :: 0 <= j < n ==> GoesOn(rounds, conn, sent, count, j)
    requires sent' == sent + if rounds[0].written then 1 else 0
    ensures forall j :: 0 <= j < n - 1 ==> GoesOn(rounds[1..], rounds[0].written, sent', count, j)
  {
    forall j | 0 <= j < n - 1
      ensures GoesOn(rounds[1..], rounds[0].written, sent', count, j)
    {
      Shifted(rounds, conn, sent, count, j + 1);
      assert GoesOn(rounds, conn, sent, count, j + 1);
    }
  }

  /** Where the loop ends settles what it writes: when it goes through the first n rounds, the successful writes
      among them, and one more if round n ends it after its write; none after a failed dial. */
  lemma {:induction false} WritesWhere(rounds: seq<Round>, conn: bool, sent: nat, count: int, n: nat)
    requires n <= |rounds| && forall j :: 0 <= j < n ==> GoesOn(rounds, conn, sent, count, j)
    ensures n == |rounds| ==> Writes(rounds, conn, sent, count) == Successes(rounds)
    ensures n < |rounds| && NeedsDial(rounds, conn, n) && !rounds[n].dialed ==>
              Writes(rounds, conn, sent, count) == Successes(rounds[..n])
    ensures n < |rounds| && (NeedsDial(rounds, conn, n) ==> rounds[n].dialed) && EndsAfter(rounds, sent, count, n) ==>
              Writes(rounds, conn, sent, count) == Successes(rounds[..n]) + 1
  {
    if n > 0 {
      var w := if rounds[0].written then 1 else 0;
      FirstGoesOn(rounds, conn, sent, count);
      RestGoesOn(rounds, conn, sent, sent + w, count, n);
      WritesWhere(rounds[1..], rounds[0].written, sent + w, count, n - 1);
      SuccessesFirst(rounds, n);
      if n < |rounds| { Shifted(rounds, conn, sent, count, n); }
    } else if rounds != [] {
      SuccessesFirst(rounds, 1);
    }
  }

  lemma {:induction false} FirstGoesOn(rounds: seq<Round>, conn: bool, sent: nat, count: int)
    requires rounds != [] && GoesOn(rounds, conn, sent, count, 0)
    ensures var w := if rounds[0].written then 1 else 0;
            Writes(rounds, conn, sent, count) == w + Writes(rounds[1..], rounds[0].written, sent + w, count)
  {
    SuccessesFirst(rounds, 1);
  }

  lemma {:induction false} SelfCheck(obj: seq<byte>, b: Block)
    requires Fits(BLOCK, b.Value()) && obj == Print(BLOCK, b.Value())
    ensures Parse(BLOCK, obj) == Got(b.Value(), |obj|)
  {
    PrintParse(BLOCK, b.Value(), []);
    assert obj + [] == obj;
  }

  /** The rounds of main's loop until it stops or the rounds given run out.  Whatever fails in between,
      the blocks written form one chain; sent counts exactly them and stops at -count. */
  method PushBlocks(sha: Sha, gate: Gate, rng: Rng, txb: Builder, subtrees: nat, coinbaseSize: int, bumpSize: nat,
                    heightStart: int, count: int, connected: bool, rounds: seq<Round>)
    returns (sent: nat, stream: seq<seq<byte>>, ghost bs: seq<Block>)
    requires rng != txb.rng
    requires 1 <= subtrees < 0x200_0000_0000_0000 && bumpSize < 0x4000_0000_0000_0000
    requires MIN_RAW_SIZE <= coinbaseSize
    modifies rng, txb.rng
    ensures sent == |stream| && IsChain(sha, gate, stream, bs, subtrees, heightStart)
    ensures sent == if coinbaseSize <= MIN_RAW_SIZE + MAX_SLACK then Writes(rounds, connected, 0, count) else 0
    ensures count > 0 ==> sent <= count
  {
    hide IsBlock;
    hide IsChain;
    hide HashOf;
    sent, stream, bs := 0, [], [];
    NoBlocks(sha, gate, subtrees, heightStart);
    var prevHash: Digest := ZERO;
    var conn := connected;
    ghost var fits := coinbaseSize <= MIN_RAW_SIZE + MAX_SLACK;
    assert rounds[0..] == rounds;
    for r := 0 to |rounds|
      invariant sent == |stream| && IsChain(sha, gate, stream, bs, subtrees, heightStart)
      invariant prevHash == PrevHash(sha, stream, sent)
      invariant count > 0 ==> sent < count
      invariant fits ==> sent + Writes(rounds[r..], conn, sent, count) == Writes(rounds, connected, 0, count)
      invariant !fits ==> sent == 0
    {
      assert rounds[r..][0] == rounds[r] && rounds[r..][1..] == rounds[r + 1..];
      var height := HeightAt(heightStart, sent);
      var ok, obj, blockHash, b := NextBlock(sha, gate, rng, txb, subtrees, coinbaseSize, bumpSize, height, prevHash);
      if !ok {
        return;  // the coinbase size has no canonical split: fatalf
      }
      if !conn {
        if !rounds[r].dialed {
          return;
        }
        conn := true;
      }
      if !rounds[r].written {
        conn := false;
        continue;
      }
      ChainGrows(sha, gate, stream, bs, subtrees, heightStart, obj, b);
      sent := sent + 1;
      stream := stream + [obj];
      bs := bs + [b];
      prevHash := blockHash;
      if count > 0 && sent >= count {
        break;
      }
      if rounds[r].stop {
        break;
      }
    }
  }

  /** Lines 107-112: a block for the next height, and the self-check that it walks to its own length. */
  method NextBlock(sha: Sha, gate: Gate, rng: Rng, txb: Builder, subtrees: nat, coinbaseSize: int, bumpSize: nat,
                   height: u64, prevHash: Digest)
    returns (ok: bool, obj: seq<byte>, hash: Digest, ghost b: Block)
    requires rng != txb.rng
    requires 1 <= subtrees < 0x200_0000_0000_0000 && bumpSize < 0x4000_0000_0000_0000
    modifies rng, txb.rng
    ensures ok <==> MIN_RAW_SIZE <= coinbaseSize <= MIN_RAW_SIZE + MAX_SLACK
    ensures ok ==> IsBlock(sha, gate, obj, b, subtrees, height, prevHash) && |obj| >= LEN && hash == HashOf(sha, obj)
  {
    hide Print;
    hide PrintMany;
    hide Parse;
    hide Fits;
    hide RandBytes;
    hide RawAt;
    hide RawWords;
    hide RootsAt;
    hide Items;
    hide HeaderFront;
    hide WithNonce;
    ghost var pos := rng.pos;
    var cbTxID;
    ok, obj, hash, cbTxID, b := BuildBlock(sha, gate, rng, txb, subtrees, coinbaseSize, bumpSize, height, prevHash);
    if ok {
      ItemsPrint(RootsAt(rng.words, pos, subtrees));
      assert obj[..LEN][..76] == obj[..76];
      SelfCheck(obj, b);
      assert Parse(BLOCK, obj) == Got(b.Value(), |obj|);  // so the fatalf of line 111 cannot happen
    }
  }
}
