/** What the generators of this repository emit, as seen by the sink that sniffs it. */
module Lanes {
  import opened Bytes
  import opened BlockHdr
  import opened Buffers
  import opened WireFormat
  import opened ObjFmt
  import opened TxBuilder
  import opened Classify
  import BlockPush
  import SubtreePush
  import Frames
  import Objects
  import Relay

  /** A first object that looks plausible makes the whole stream plausible. */
  lemma {:induction false} FirstDecides(c: Class, vs: seq<Value>)
    requires FitAll(FormatOf(c), vs) && vs != []
    requires Plausible(c, Print(FormatOf(c), vs[0]))
    ensures Plausible(c, PrintMany(FormatOf(c), vs))
  {
    FormatsUsable();
    var f := FormatOf(c);
    var x, s := Print(f, vs[0]), PrintMany(f, vs);
    PrintParse(f, vs[0], []);
    AtLeastMinSize(f, x + []);
    hide Print;
    hide Parse;
    assert |x| >= MinSize(f) && x <= s;
    SamePrefix(c, x, s);
  }

  lemma {:induction false} SamePrefix(c: Class, x: seq<byte>, s: seq<byte>)
    requires x <= s && Plausible(c, x)
    requires |x| >= (match c case ClassTx => 4 case ClassSubtree => SUBTREE_HEADER_SIZE case ClassBlock => BLOCK_PREFIX_SIZE)
    ensures Plausible(c, s)
  {
    match c
    case ClassTx => assert s[..4] == x[..4];
    case ClassSubtree => assert s[32..40] == x[32..40];
    case ClassBlock => assert s[80..88] == x[80..88] && s[88..96] == x[88..96] && s[96..104] == x[96..104];
  }

  /** Every prefix of a stream of Build and BuildEF output keeps the tx class alive, so a sole viable
      class is tx. */
  lemma {:induction false} BuiltStreamIsTx(words: nat -> u64, pos: nat, orders: seq<Order>, k: nat)
    requires orders != [] && forall i :: 0 <= i < |orders| ==> orders[i].InRange()
    requires k <= |PrintMany(TX, Built(words, pos, orders))|
    ensures var buf := PrintMany(TX, Built(words, pos, orders))[..k];
            Score(ClassTx, buf).viable && forall d: Class :: OnlyViable(d, buf) ==> d == ClassTx
  {
    hide PrintMany;
    hide Print;
    hide Fits;
    hide Plausible;
    var vs := Built(words, pos, orders);
    BuiltFits(words, pos, orders);
    BuiltVersion(words, pos, orders[0]);
    Version2(vs[0]);
    FirstDecides(ClassTx, vs);
    TrueClassViable(ClassTx, vs, k);
  }

  lemma {:induction false} BuiltVersion(words: nat -> u64, pos: nat, o: Order)
    requires o.InRange()
    ensures Fits(TX, BuiltAt(words, pos, o)) && BuiltAt(words, pos, o).fst == Raw(Le(2, 4))
  {
    BuiltAtFits(words, pos, o);
  }

  lemma {:induction false} Version2(v: Value)
    requires Fits(TX, v) && v.fst == Raw(Le(2, 4))
    ensures Plausible(ClassTx, Print(TX, v))
  {
    PrintTx(v);
    Widths();
    LeUndone(2, 4);
    hide Print;
    hide Le;
    hide FromLe;
    assert Print(TX, v)[..4] == Le(2, 4);
  }

  /** ... of buildSubtree output with at most 2^24 nodes each keeps the subtree class alive. */
  lemma {:induction false} SubtreeStreamIsSubtree(sha: Sha, trees: seq<seq<Digest>>, k: nat)
    requires trees != [] && forall i :: 0 <= i < |trees| ==> 0 < |trees[i]| <= 0x100_0000
    requires k <= |PrintMany(SUBTREE, Subtrees(sha, trees))|
    ensures var buf := PrintMany(SUBTREE, Subtrees(sha, trees))[..k];
            Score(ClassSubtree, buf).viable && forall d: Class :: OnlyViable(d, buf) ==> d == ClassSubtree
  {
    hide PrintMany;
    hide Print;
    hide Fits;
    hide Plausible;
    var vs := Subtrees(sha, trees);
    forall i | 0 <= i < |vs|
      ensures Fits(SUBTREE, vs[i])
    {
      SubtreePush.SubtreePrints(sha, trees[i]);
    }
    NodeCountPlausible(sha, trees[0]);
    FirstDecides(ClassSubtree, vs);
    TrueClassViable(ClassSubtree, vs, k);
  }

  function Subtrees(sha: Sha, trees: seq<seq<Digest>>): (vs: seq<Value>)
    ensures |vs| == |trees| && forall i :: 0 <= i < |vs| ==> vs[i] == SubtreePush.SubtreeOf(sha, trees[i])
  {
    if trees == [] then [] else [SubtreePush.SubtreeOf(sha, trees[0])] + Subtrees(sha, trees[1..])
  }

  lemma {:induction false} NodeCountPlausible(sha: Sha, hs: seq<Digest>)
    requires 0 < |hs| <= 0x100_0000
    ensures Plausible(ClassSubtree, Print(SUBTREE, SubtreePush.SubtreeOf(sha, hs)))
  {
    SubtreePush.SubtreePrints(sha, hs);
    Widths();
    BeUndone(|hs|, 8);
    hide Print;
    hide Be;
    hide FromBe;
    var s := Print(SUBTREE, SubtreePush.SubtreeOf(sha, hs));
    assert s[32..40] == Be(|hs|, 8);
  }

  /** ... of block objects within the sink's limits keeps the block class alive. */
  lemma {:induction false} BlockStreamIsBlock(bs: seq<Block>, k: nat)
    requires bs != [] && forall i :: 0 <= i < |bs| ==> Fits(BLOCK, bs[i].Value())
    requires 0 < |bs[0].roots| <= 0x10_0000 && bs[0].txCount <= 0x10_0000_0000 && bs[0].size <= 0x100_0000_0000
    requires k <= |PrintMany(BLOCK, Blocks(bs))|
    ensures var buf := PrintMany(BLOCK, Blocks(bs))[..k];
            Score(ClassBlock, buf).viable && forall d: Class :: OnlyViable(d, buf) ==> d == ClassBlock
  {
    hide PrintMany;
    hide Print;
    hide Fits;
    hide Plausible;
    BlockFieldsPlausible(bs[0]);
    FirstDecides(ClassBlock, Blocks(bs));
    TrueClassViable(ClassBlock, Blocks(bs), k);
  }

  function Blocks(bs: seq<Block>): (vs: seq<Value>)
    ensures |vs| == |bs| && forall i :: 0 <= i < |vs| ==> vs[i] == bs[i].Value()
  {
    if bs == [] then [] else [bs[0].Value()] + Blocks(bs[1..])
  }

  /** What the loop of send-block-push has written, object after object. */
  function Stream(sent: seq<seq<byte>>): seq<byte> {
    if sent == [] then [] else sent[0] + Stream(sent[1..])
  }

  lemma {:induction false} StreamPrints(sent: seq<seq<byte>>, bs: seq<Block>)
    requires |bs| == |sent| && forall i :: 0 <= i < |sent| ==> sent[i] == Print(BLOCK, bs[i].Value())
    ensures Stream(sent) == PrintMany(BLOCK, Blocks(bs))
  {
    if sent != [] {
      hide Print;
      StreamPrints(sent[1..], bs[1..]);
    }
  }

  /** ... in particular what main writes: whatever writes fail, any prefix of the stream keeps the block
      class alive, as long as -subtrees and the first object are within the sink's limits. */
  lemma {:induction false} PushedStreamIsBlock(sha: Sha, gate: Gate, sent: seq<seq<byte>>, bs: seq<Block>,
                                               subtrees: nat,
                                               heightStart: int, k: nat)
    requires BlockPush.IsChain(sha, gate, sent, bs, subtrees, heightStart) && sent != []
    requires 0 < subtrees <= 0x10_0000 && |sent[0]| <= 0x100_0000_0000
    requires k <= |Stream(sent)|
    ensures var buf := Stream(sent)[..k];
            Score(ClassBlock, buf).viable && forall d: Class :: OnlyViable(d, buf) ==> d == ClassBlock
  {
    hide Print;
    hide PrintMany;
    hide Fits;
    hide Score;
    hide BlockPush.HeaderFront;
    hide BlockPush.IsGround;
    forall i | 0 <= i < |sent|
      ensures sent[i] == Print(BLOCK, bs[i].Value()) && Fits(BLOCK, bs[i].Value())
      ensures |bs[i].roots| == subtrees && bs[i].txCount == subtrees * 1000 + 1 && bs[i].size == |sent[i]|
    {
      var h, p := BlockPush.HeightAt(heightStart, i), BlockPush.PrevHash(sha, sent, i);
      assert BlockPush.IsBlock(sha, gate, sent[i], bs[i], subtrees, h, p);
    }
    StreamPrints(sent, bs);
    BlockStreamIsBlock(bs, k);
  }

  lemma {:induction false} FirstOfStream(sent: seq<seq<byte>>, n: nat)
    requires sent != [] && n <= |sent[0]|
    ensures n <= |Stream(sent)| && Stream(sent)[..n] == sent[0][..n]
  {
  }

  /** ... while the tx class, for which the version of such a header would pass, is out after ten bytes: the
      previous hash of the first block is zero, which no transaction has there. */
  lemma {:induction false} PushedStreamNotTx(sha: Sha, gate: Gate, sent: seq<seq<byte>>, bs: seq<Block>, subtrees: nat,
                                             heightStart: int, k: nat)
    requires BlockPush.IsChain(sha, gate, sent, bs, subtrees, heightStart) && sent != []
    requires 10 <= k <= |Stream(sent)|
    ensures !Score(ClassTx, Stream(sent)[..k]).viable
  {
    BlockPush.ChainLinks(sha, gate, sent, bs, subtrees, heightStart, 0);
    FirstOfStream(sent, 80);
    hide Stream;
    hide BlockPush.IsChain;
    var buf := Stream(sent)[..k];
    ZeroAt(0, 32);
    FirstBytesZero(sent[0], buf);
    MarkerOrBad(buf);
    hide Score;
    hide Parse;
    MalformedEliminates(ClassTx, [], buf);
    assert PrintMany(TX, []) + buf == buf;
  }

  lemma {:induction false} FirstBytesZero(first: seq<byte>, buf: seq<byte>)
    requires |first| >= 80 && |buf| >= 10 && first[4..36] == ZERO && first[..10] == buf[..10]
    ensures buf[4] == 0 && buf[4..10] != [0, 0, 0, 0, 0, 0xEF]
  {
    ZeroAt(0, 32);
    assert buf[4] == first[..10][4] == first[4..36][0];
    assert buf[4..10][5] == buf[9] == first[..10][9] == first[4..36][5];
  }

  lemma {:induction false} BlockFront(b: Block)
    requires Fits(BLOCK, b.Value())
    ensures var s := Print(BLOCK, b.Value());
            && |s| >= BLOCK_PREFIX_SIZE && |b.roots| < U64
            && s[..80] == b.header && s[80..88] == Be(b.txCount, 8) && s[88..96] == Be(b.size, 8)
            && s[96..104] == Be(|b.roots|, 8)
  {
    hide Print;
    hide PrintMany;
    hide Fits;
    hide Be;
    BlockFrontBytes(b, 104 + 32 * |b.roots|);
  }

  lemma {:induction false} BlockFieldsPlausible(b: Block)
    requires Fits(BLOCK, b.Value())
    requires 0 < |b.roots| <= 0x10_0000 && b.txCount <= 0x10_0000_0000 && b.size <= 0x100_0000_0000
    ensures Plausible(ClassBlock, Print(BLOCK, b.Value()))
  {
    BlockFront(b);
    Widths();
    BeUndone(b.txCount, 8);
    BeUndone(b.size, 8);
    BeUndone(|b.roots|, 8);
  }

  /** On the lane of its true class a stream of objects within the size limit is delivered whole. */
  lemma {:induction false} TrueLaneDeliversAll(c: Class, vs: seq<Value>, v3: nat, maxObject: nat)
    requires v3 >= Frames.HEADER_SIZE && FitAll(FormatOf(c), vs)
    requires forall i :: 0 <= i < |vs| ==> |Print(FormatOf(c), vs[i])| <= maxObject
    ensures var s := PrintMany(FormatOf(c), vs);
            Relay.Delivery(Relay.Lane(c), v3, maxObject, s) == s && Relay.Writes(Relay.Lane(c), v3, maxObject, s) == |vs|
  {
    Objects.ObjectsReadBack(FormatOf(c), maxObject, vs);
  }

  /** Frames of the legacy senders in any mix, whatever the chunking, are recognised as a framed stream
      and relayed verbatim, all of them. */
  method RelaySentFrames(v3: nat, maxObject: nat, sent: seq<Frames.Sent>, events: seq<Relay.Event>, sink: Relay.Sink,
                         ports: Relay.Ports)
    requires v3 >= Frames.HEADER_SIZE && sent != []
    requires forall i :: 0 <= i < |sent| ==> |sent[i].payload| < U32 && |sent[i].payload| <= maxObject
    requires Relay.Flat(events) == Frames.PrintFrames(Frames.SentFrames(sent))
    requires sink.good >= 2 * |sent|
    modifies sink
    ensures sink.out == old(sink.out) + Relay.Flat(events)
  {
    Frames.SentFramesReadBack(v3, maxObject, sent);
    Frames.SentFramesMagic(sent);
    var _, _, _ := Relay.RelayConnection(events, sink, v3, maxObject, true, ports);
  }

  /** No other class ever has the evidence to be taken for c on a prefix of s. */
  ghost predicate Unmistakable(c: Class, s: seq<byte>) {
    forall d: Class, k :: 0 <= k <= |s| && d != c && Score(d, s[..k]).viable ==>
      k < 104 && k < |s| && Score(d, s[..k]).complete == 0
  }

  /** A stream of well-formed objects within the limit, the first plausible, is always taken for some lane, for
      the right one whenever the sniffed prefix leaves one class viable; and then, however it is chunked, all of
      it is relayed, to that lane's port. */
  method RelayObjects(c: Class, vs: seq<Value>, events: seq<Relay.Event>, sink: Relay.Sink, v3: nat, maxObject: nat,
                      ports: Relay.Ports)
    returns (r: Relay.Sniffed, port: nat, ghost seen: nat)
    requires v3 >= Frames.HEADER_SIZE && FitAll(FormatOf(c), vs)
    requires forall i :: 0 <= i < |vs| ==> |Print(FormatOf(c), vs[i])| <= maxObject
    requires Relay.Flat(events) == PrintMany(FormatOf(c), vs)
    requires Plausible(c, Relay.Flat(events)) && !Relay.StartsWithMagic(Relay.Flat(events))
    requires sink.good >= |vs|
    modifies sink
    ensures r.Lane? && seen <= |Relay.Flat(events)|
    ensures OnlyViable(c, Relay.Flat(events)[..seen]) || Unmistakable(c, Relay.Flat(events)) ==> r.class_ == c
    ensures r.class_ == c ==> sink.out == old(sink.out) + Relay.Flat(events)
    ensures r.class_ == c ==>
              port == match c case ClassTx => ports.tx case ClassSubtree => ports.subtree case ClassBlock => ports.block
  {
    hide Score;
    hide Print;
    hide PrintMany;
    hide Fits;
    hide Relay.Flat;
    hide Relay.Delivery;
    hide Relay.Writes;
    ghost var s := Relay.Flat(events);
    TrueClassViable(c, vs, |s|);
    assert s[..|s|] == s;
    TrueLaneDeliversAll(c, vs, v3, maxObject);
    r, port, seen := Relay.RelayConnection(events, sink, v3, maxObject, true, ports);
  }
}
