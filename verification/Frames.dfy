/** The framed lane: the frame encoders of the legacy senders, and the grammar pumpFramed reads. */
module Frames {
  import opened Bytes
  import opened Buffers

  const HEADER_SIZE := 92
  const MAGIC := 0xE3E1F3E8
  const PROTO_VER := 0x02BF

  datatype Frame = Frame(header: seq<byte>, payload: seq<byte>) {
    function Wire(): seq<byte> {
      header + payload
    }
  }

  function PrintFrames(fs: seq<Frame>): seq<byte> {
    if fs == [] then [] else fs[0].Wire() + PrintFrames(fs[1..])
  }

  // ---------------------------------------------------------------- the grammar

  /** Why a framed stream ends; only RelayFailed is not the input's doing. */
  datatype End = Eof | UnexpectedEof | LostSync | Legacy | TooLarge | RelayFailed

  datatype Next = Got(frame: Frame, n: nat) | Stop(end: End)

  /** The length of the header a version has; HeaderSizeV3 is a parameter of at least 92. */
  function HeaderLen(v3: nat, ver: byte): nat {
    if ver == 3 then v3 else HEADER_SIZE
  }

  function MagicOf(s: seq<byte>): nat
    requires |s| >= 4
  {
    FromBe(s[..4])
  }

  function PayloadLen(header: seq<byte>): nat
    requires |header| >= HEADER_SIZE
  {
    FromBe(header[88..92])
  }

  /** io.ReadFull of `want` bytes when `left` remain: io.EOF only if not one byte was there. */
  function ShortRead(left: nat): End {
    if left == 0 then Eof else UnexpectedEof
  }

  datatype HeaderRead = Header(bytes: seq<byte>) | NoHeader(end: End)

  /** Lines 302-315 of tunnel-sink: the fixed header, its magic, and the rest of a version 3 header. */
  function HeaderAt(v3: nat, s: seq<byte>): (r: HeaderRead)
    requires v3 >= HEADER_SIZE
    ensures r.Header? ==> HEADER_SIZE <= |r.bytes| <= |s| && r.bytes == s[..|r.bytes|]
    ensures r.NoHeader? ==> !r.end.RelayFailed?
  {
    if |s| < HEADER_SIZE then NoHeader(ShortRead(|s|))
    else if MagicOf(s) != MAGIC then NoHeader(LostSync)
    else
      var hdrLen := HeaderLen(v3, s[6]);
      if |s| < hdrLen then NoHeader(ShortRead(|s| - HEADER_SIZE)) else Header(s[..hdrLen])
  }

  /** One round of pumpFramed's loop on the bytes that are left. */
  function NextFrame(v3: nat, maxObject: nat, s: seq<byte>): (r: Next)
    requires v3 >= HEADER_SIZE
    ensures r.Got? ==> HEADER_SIZE <= r.n <= |s| && r.frame.Wire() == s[..r.n]
    ensures r.Stop? ==> !r.end.RelayFailed?
  {
    match HeaderAt(v3, s)
    case NoHeader(e) => Stop(e)
    case Header(hdr) =>
      if hdr[6] == 1 then Stop(Legacy)
      else
        var payLen := PayloadLen(hdr);
        var rest := s[|hdr|..];
        if payLen > maxObject then Stop(TooLarge)
        else if |rest| < payLen then Stop(ShortRead(|rest|))
        else
          assert s[..|hdr| + payLen] == hdr + rest[..payLen];
          Got(Frame(hdr, rest[..payLen]), |hdr| + payLen)
  }

  datatype Framing = Framing(frames: seq<Frame>, rest: seq<byte>, end: End)

  /** All complete frames of a stream, what is left, and how the stream ends there. */
  function FramesOf(v3: nat, maxObject: nat, s: seq<byte>): Framing
    requires v3 >= HEADER_SIZE
    decreases |s|
  {
    match NextFrame(v3, maxObject, s)
    case Stop(e) => Framing([], s, e)
    case Got(f, n) => var r := FramesOf(v3, maxObject, s[n..]); Framing([f] + r.frames, r.rest, r.end)
  }

  lemma {:induction false} PrintFramesCons(f: Frame, fs: seq<Frame>)
    ensures PrintFrames([f] + fs) == f.Wire() + PrintFrames(fs)
  {
    assert ([f] + fs)[1..] == fs;
  }

  lemma {:induction false} FramesSound(v3: nat, maxObject: nat, s: seq<byte>)
    requires v3 >= HEADER_SIZE
    ensures var r := FramesOf(v3, maxObject, s);
            PrintFrames(r.frames) + r.rest == s && NextFrame(v3, maxObject, r.rest) == Stop(r.end)
    decreases |s|
  {
    var x := NextFrame(v3, maxObject, s);
    if x.Got? {
      hide NextFrame;
      FramesSound(v3, maxObject, s[x.n..]);
      hide FramesOf;
      var r := FramesOf(v3, maxObject, s[x.n..]);
      PrintFramesCons(x.frame, r.frames);
      Regroup(s, x.n, x.frame.Wire(), PrintFrames(r.frames), r.rest);
    }
  }

  /** A frame the grammar accepts whole, and only whole. */
  ghost predicate WellFormed(v3: nat, maxObject: nat, f: Frame) {
    && |f.header| >= HEADER_SIZE && MagicOf(f.header) == MAGIC && f.header[6] != 1
    && |f.header| == HeaderLen(v3, f.header[6])
    && PayloadLen(f.header) == |f.payload| <= maxObject
  }

  lemma {:induction false} FrameReadBack(v3: nat, maxObject: nat, f: Frame, rest: seq<byte>)
    requires v3 >= HEADER_SIZE && WellFormed(v3, maxObject, f)
    ensures NextFrame(v3, maxObject, f.Wire() + rest) == Got(f, |f.Wire()|)
  {
    var s := f.Wire() + rest;
    assert s[..4] == f.header[..4] && s[6] == f.header[6];
    assert s[..|f.header|] == f.header && s[|f.header|..][..|f.payload|] == f.payload;
  }

  /** Well-formed frames written back to back, whatever follows them, are read as exactly those frames. */
  lemma {:induction false} FramesReadBack(v3: nat, maxObject: nat, fs: seq<Frame>, rest: seq<byte>)
    requires v3 >= HEADER_SIZE && forall i :: 0 <= i < |fs| ==> WellFormed(v3, maxObject, fs[i])
    ensures var r := FramesOf(v3, maxObject, rest);
            FramesOf(v3, maxObject, PrintFrames(fs) + rest) == Framing(fs + r.frames, r.rest, r.end)
    decreases |fs|
  {
    if fs == [] {
      assert PrintFrames(fs) + rest == rest;
    } else {
      hide NextFrame;
      hide WellFormed;
      var x, y := fs[0].Wire(), PrintFrames(fs[1..]) + rest;
      FrameReadBack(v3, maxObject, fs[0], y);
      FramesReadBack(v3, maxObject, fs[1..], rest);
      assert (x + y)[|x|..] == y;
      Assoc(x, PrintFrames(fs[1..]), rest);
      Front(fs, FramesOf(v3, maxObject, rest).frames);
    }
  }

  lemma Front(fs: seq<Frame>, more: seq<Frame>)
    requires fs != []
    ensures [fs[0]] + (fs[1..] + more) == fs + more
  {
  }

  /** One round, in bytes: what makes it stop for a reason other than missing bytes, and where a frame ends. */
  lemma {:induction false} RoundExactly(v3: nat, maxObject: nat, s: seq<byte>)
    requires v3 >= HEADER_SIZE
    ensures var whole := |s| >= 92 && s[..4] == [0xE3, 0xE1, 0xF3, 0xE8] && |s| >= if s[6] == 3 then v3 else 92;
            var r := NextFrame(v3, maxObject, s);
            && (r == Stop(LostSync) <==> |s| >= 92 && s[..4] != [0xE3, 0xE1, 0xF3, 0xE8])
            && (r == Stop(Legacy) <==> whole && s[6] == 1)
            && (r == Stop(TooLarge) <==> whole && s[6] != 1 && FromBe(s[88..92]) > maxObject)
            && (r.Got? <==> whole && s[6] != 1 && FromBe(s[88..92]) <= maxObject
                            && |s| >= (if s[6] == 3 then v3 else 92) + FromBe(s[88..92]))
            && (r.Got? ==> var h := if s[6] == 3 then v3 else 92;
                           r.n == h + FromBe(s[88..92]) && r.frame.header == s[..h] && r.frame.payload == s[h..r.n])
  {
    if |s| >= 92 {
      MagicExactly(s);
      hide FromBe;
      hide MagicOf;
      var h := if s[6] == 3 then v3 else 92;
      if |s| >= h {
        SliceOfPrefix(s, h, 88, 92);
        assert s[..h][6] == s[6];
        if |s| >= h + FromBe(s[88..92]) {
          assert s[h..][..FromBe(s[88..92])] == s[h..h + FromBe(s[88..92])];
        }
      }
    }
  }

  lemma {:induction false} MagicExactly(s: seq<byte>)
    requires |s| >= 4
    ensures MagicOf(s) == MAGIC <==> s[..4] == [0xE3, 0xE1, 0xF3, 0xE8]
  {
    MagicBytes();
    FromBeUndone(s[..4]);
    Be32Undone(MAGIC);
  }

  lemma {:induction false} MagicBytes()
    ensures Be(MAGIC, 4) == [0xE3, 0xE1, 0xF3, 0xE8] && Be(PROTO_VER, 2) == [0x02, 0xBF]
  {
    assert Be(0xE3, 1) == Be(0, 0) + [0xE3] && Be(0xE3E1, 2) == Be(0xE3, 1) + [0xE1];
    assert Be(0xE3E1F3, 3) == Be(0xE3E1, 2) + [0xF3] && Be(0xE3E1F3E8, 4) == Be(0xE3E1F3, 3) + [0xE8];
    assert Be(0x02, 1) == Be(0, 0) + [0x02] && Be(0x02BF, 2) == Be(0x02, 1) + [0xBF];
  }

  /** The io.EOF that tunnel-sink logs as an orderly close does not mean that the stream ended between
      frames: it also covers a stream cut right after a header (or, for version 3, after its first 92 bytes). */
  lemma {:induction false} EofExactly(v3: nat, maxObject: nat, s: seq<byte>)
    requires v3 >= HEADER_SIZE
    ensures NextFrame(v3, maxObject, s) == Stop(Eof) <==>
              || s == []
              || (|s| >= HEADER_SIZE && MagicOf(s) == MAGIC
                  && ((s[6] == 3 && |s| == HEADER_SIZE < v3)
                      || (|s| == HeaderLen(v3, s[6]) && s[6] != 1 && 0 < PayloadLen(s) <= maxObject)))
  {
    if |s| >= HEADER_SIZE && HeaderLen(v3, s[6]) <= |s| {
      var hdr := s[..HeaderLen(v3, s[6])];
      assert hdr[88..92] == s[88..92] && hdr[6] == s[6];
    }
  }

  // ---------------------------------------------------------------- the encoders

  /** A 92-byte header with HashKey and SeqNum zero, and the payload. */
  function Encoded(ver: byte, msgType: byte, id: Digest, subtreeID: Digest, payload: seq<byte>): Frame {
    Frame(Be(MAGIC, 4) + Be(PROTO_VER, 2) + [ver, msgType] + id + Fill(0, 16) + subtreeID + Be(|payload| % U32, 4), payload)
  }

  /** Fields bytes 0-7, then the id; the rest of buf is zero. */
  method PutHead(buf: array<byte>, ver: byte, msgType: byte, id: Digest)
    requires buf.Length >= HEADER_SIZE && forall i :: 0 <= i < buf.Length ==> buf[i] == 0
    modifies buf
    ensures buf[..56] == Be(MAGIC, 4) + Be(PROTO_VER, 2) + [ver, msgType] + id + Fill(0, 16)
    ensures forall i :: 56 <= i < buf.Length ==> buf[i] == 0
  {
    hide Be;
    hide Fill;
    hide Wrote;
    ghost var s0 := buf[..];
    var _ := Put(buf, 0, Be(MAGIC, 4));
    ghost var s1 := buf[..];
    var _ := Put(buf, 4, Be(PROTO_VER, 2));
    ghost var s2 := buf[..];
    WroteThen(s0, s1, s2, 0, Be(MAGIC, 4), Be(PROTO_VER, 2));
    var _ := Put(buf, 6, [ver, msgType]);
    ghost var s3, front := buf[..], Be(MAGIC, 4) + Be(PROTO_VER, 2);
    WroteThen(s0, s2, s3, 0, front, [ver, msgType]);
    var _ := Put(buf, 8, id);
    WroteThen(s0, s3, buf[..], 0, front + [ver, msgType], id);
    WroteOverZeros(s0, buf[..], front + [ver, msgType] + id);
  }

  lemma {:induction false} WroteOverZeros(before: seq<byte>, after: seq<byte>, b: seq<byte>)
    requires Wrote(before, after, 0, b) && |b| == 40 && |before| >= HEADER_SIZE
    requires forall i :: 0 <= i < |before| ==> before[i] == 0
    ensures |after| == |before| && after[..56] == b + Fill(0, 16)
    ensures forall i :: 56 <= i < |after| ==> after[i] == 0
  {
    WroteWhole(before, after, b);
    hide Wrote;
    AllZero(before[40..56]);
    assert after[40..] == before[40..] && after[40..56] == after[40..][..16] == before[40..56];
    assert after[..56] == after[..40] + after[40..56];
    forall i | 56 <= i < |after|
      ensures after[i] == 0
    {
      assert after[i] == after[40..][i - 40];
    }
  }

  lemma {:induction false} AllZero(s: seq<byte>)
    requires forall i :: 0 <= i < |s| ==> s[i] == 0
    ensures s == Fill(0, |s|)
  {
  }

  /** The payload length and the payload. */
  method PutPayload(buf: array<byte>, payload: seq<byte>)
    requires buf.Length == HEADER_SIZE + |payload|
    modifies buf
    ensures buf[..88] == old(buf[..88])
    ensures buf[88..] == Be(|payload| % U32, 4) + payload
  {
    hide Be;
    hide Wrote;
    ghost var s0 := buf[..];
    var _ := Put(buf, 88, Be(|payload| % U32, 4));
    ghost var s1 := buf[..];
    var _ := Put(buf, HEADER_SIZE, payload);
    WroteThen(s0, s1, buf[..], 88, Be(|payload| % U32, 4), payload);
    WroteTail(s0, buf[..], 88, Be(|payload| % U32, 4) + payload);
  }

  method EncodeAnchorFrame(txid: Digest, payload: seq<byte>) returns (buf: array<byte>)
    ensures buf[..] == Anchor(txid, payload).Frame().Wire()
  {
    hide Be;
    hide Fill;
    hide Encoded;
    buf := new byte[HEADER_SIZE + |payload|](_ => 0);
    PutHead(buf, 0x06, 0x00, txid);
    ZeroField(buf[..], 56);
    assert buf[..88][56..88] == ZERO && buf[..88][..56] == buf[..56];
    PutPayload(buf, payload);
    Pieces(buf[..], 0x06, 0x00, txid, ZERO, payload);
  }

  method EncodeBlockFrame(msgType: byte, contentID: Digest, payload: seq<byte>) returns (buf: array<byte>)
    ensures buf[..] == BlockControl(msgType, contentID, payload).Frame().Wire()
  {
    hide Be;
    hide Fill;
    hide Encoded;
    buf := new byte[HEADER_SIZE + |payload|](_ => 0);
    PutHead(buf, 0x04, msgType, contentID);
    ZeroField(buf[..], 56);
    assert buf[..88][56..88] == ZERO && buf[..88][..56] == buf[..56];
    PutPayload(buf, payload);
    Pieces(buf[..], 0x04, msgType, contentID, ZERO, payload);
  }

  method EncodeSubtreeDataFrame(msgType: byte, subtreeID: Digest, payload: seq<byte>) returns (buf: array<byte>)
    ensures buf[..] == SubtreeData(msgType, subtreeID, payload).Frame().Wire()
  {
    hide Be;
    hide Fill;
    hide Encoded;
    buf := new byte[HEADER_SIZE + |payload|](_ => 0);
    PutHead(buf, 0x05, msgType, subtreeID);
    ghost var head := buf[..56];
    var _ := Put(buf, 56, subtreeID);
    assert buf[..56] == head && buf[56..88] == subtreeID;
    PutPayload(buf, payload);
    Pieces(buf[..], 0x05, msgType, subtreeID, subtreeID, payload);
  }

  lemma {:induction false} ZeroField(s: seq<byte>, off: nat)
    requires off + 32 <= |s| && forall i :: off <= i < |s| ==> s[i] == 0
    ensures s[off..off + 32] == ZERO
  {
    ZeroAt(0, 32);
  }

  lemma {:induction false} Pieces(s: seq<byte>, ver: byte, msgType: byte, id: Digest, subtreeID: Digest,
                                  payload: seq<byte>)
    requires |s| == HEADER_SIZE + |payload|
    requires s[..56] == Be(MAGIC, 4) + Be(PROTO_VER, 2) + [ver, msgType] + id + Fill(0, 16)
    requires s[..88][56..88] == subtreeID
    requires s[88..] == Be(|payload| % U32, 4) + payload
    ensures s == Encoded(ver, msgType, id, subtreeID, payload).Wire()
  {
    hide Be;
    hide Fill;
    var len := Be(|payload| % U32, 4);
    assert s[..88] == s[..56] + s[..88][56..88];
    assert s == s[..88] + s[88..];
    Assoc(s[..88], len, payload);
  }

  /** What the encoders emit is well formed whenever the length field can hold the payload length. */
  lemma {:induction false} EncodedWellFormed(v3: nat, maxObject: nat, ver: byte, msgType: byte, id: Digest,
                                             subtreeID: Digest,
                                             payload: seq<byte>)
    requires v3 >= HEADER_SIZE && ver != 1 && ver != 3
    requires |payload| < U32 && |payload| <= maxObject
    ensures WellFormed(v3, maxObject, Encoded(ver, msgType, id, subtreeID, payload))
  {
    hide Be;
    hide FromBe;
    EncodedEnds(ver, msgType, id, subtreeID, payload);
    EncodedParts(ver, msgType, id, subtreeID, payload);
    assert Encoded(ver, msgType, id, subtreeID, payload).payload == payload;
    hide Encoded;
    Be32Undone(MAGIC);
    Be32Undone(|payload|);
  }

  lemma {:induction false} EncodedEnds(ver: byte, msgType: byte, id: Digest, subtreeID: Digest, payload: seq<byte>)
    ensures var h := Encoded(ver, msgType, id, subtreeID, payload).header;
            |h| == HEADER_SIZE && h[..4] == Be(MAGIC, 4) && h[88..92] == Be(|payload| % U32, 4)
  {
    hide Be;
    hide Fill;
  }

  /** One frame of the legacy senders. */
  datatype Sent =
    | Anchor(id: Digest, payload: seq<byte>)
    | BlockControl(msgType: byte, id: Digest, payload: seq<byte>)
    | SubtreeData(msgType: byte, id: Digest, payload: seq<byte>)
  {
    function Frame(): Frame {
      match this
      case Anchor(id, p) => Encoded(0x06, 0x00, id, ZERO, p)
      case BlockControl(m, id, p) => Encoded(0x04, m, id, ZERO, p)
      case SubtreeData(m, id, p) => Encoded(0x05, m, id, id, p)
    }
  }

  function SentFrames(sent: seq<Sent>): (fs: seq<Frame>)
    ensures |fs| == |sent| && forall i :: 0 <= i < |fs| ==> fs[i] == sent[i].Frame()
  {
    if sent == [] then [] else [sent[0].Frame()] + SentFrames(sent[1..])
  }

  lemma {:induction false} SentWellFormed(v3: nat, maxObject: nat, a: Sent)
    requires v3 >= HEADER_SIZE && |a.payload| < U32 && |a.payload| <= maxObject
    ensures WellFormed(v3, maxObject, a.Frame())
  {
    hide WellFormed;
    hide Encoded;
    match a
    case Anchor(id, p) => EncodedWellFormed(v3, maxObject, 0x06, 0x00, id, ZERO, p);
    case BlockControl(m, id, p) => EncodedWellFormed(v3, maxObject, 0x04, m, id, ZERO, p);
    case SubtreeData(m, id, p) => EncodedWellFormed(v3, maxObject, 0x05, m, id, id, p);
  }

  /** Frames of the three senders in any mix come out as the frames that went in. */
  lemma {:induction false} SentFramesReadBack(v3: nat, maxObject: nat, sent: seq<Sent>)
    requires v3 >= HEADER_SIZE
    requires forall i :: 0 <= i < |sent| ==> |sent[i].payload| < U32 && |sent[i].payload| <= maxObject
    ensures FramesOf(v3, maxObject, PrintFrames(SentFrames(sent))) == Framing(SentFrames(sent), [], Eof)
  {
    hide WellFormed;
    hide Encoded;
    var fs := SentFrames(sent);
    forall i | 0 <= i < |fs|
      ensures WellFormed(v3, maxObject, fs[i])
    {
      SentWellFormed(v3, maxObject, sent[i]);
    }
    FramesReadBack(v3, maxObject, fs, []);
    assert PrintFrames(fs) + [] == PrintFrames(fs) && fs + [] == fs;
  }

  lemma {:induction false} SentFramesMagic(sent: seq<Sent>)
    requires sent != []
    ensures var s := PrintFrames(SentFrames(sent)); |s| >= 4 && FromBe(s[..4]) == MAGIC
  {
    Be32Undone(MAGIC);
    hide Be;
    hide FromBe;
    hide Encoded;
    HeaderMagic(sent[0]);
    assert PrintFrames(SentFrames(sent))[..4] == SentFrames(sent)[0].header[..4];
  }

  lemma {:induction false} HeaderMagic(a: Sent)
    ensures |a.Frame().header| == HEADER_SIZE && a.Frame().header[..4] == Be(MAGIC, 4)
  {
    match a
    case Anchor(id, p) => EncodedEnds(0x06, 0x00, id, ZERO, p);
    case BlockControl(m, id, p) => EncodedEnds(0x04, m, id, ZERO, p);
    case SubtreeData(m, id, p) => EncodedEnds(0x05, m, id, id, p);
  }

  lemma {:induction false} EncodedParts(ver: byte, msgType: byte, id: Digest, subtreeID: Digest, payload: seq<byte>)
    ensures var h := Encoded(ver, msgType, id, subtreeID, payload).header;
            h[6] == ver && h[7] == msgType && h[8..40] == id
  {
    hide Be;
    hide Fill;
  }

  /** The frame determines everything that was sent. */
  lemma {:induction false} EncodedInjective(a: Sent, b: Sent)
    requires a.Frame() == b.Frame()
    ensures a == b
  {
    PartsOf(a);
    PartsOf(b);
    hide Encoded;
  }

  lemma {:induction false} PartsOf(a: Sent)
    ensures var f := a.Frame();
            && f.payload == a.payload && |f.header| >= 40 && f.header[8..40] == a.id
            && (a.Anchor? ==> f.header[6] == 6)
            && (a.BlockControl? ==> f.header[6] == 4 && f.header[7] == a.msgType)
            && (a.SubtreeData? ==> f.header[6] == 5 && f.header[7] == a.msgType)
  {
    match a
    case Anchor(id, p) => EncodedParts(0x06, 0x00, id, ZERO, p);
    case BlockControl(m, id, p) => EncodedParts(0x04, m, id, ZERO, p);
    case SubtreeData(m, id, p) => EncodedParts(0x05, m, id, id, p);
  }

  lemma {:induction false} HeaderSlices(a: seq<byte>, b: seq<byte>, c: seq<byte>, id: seq<byte>, z: seq<byte>,
                                        sub: seq<byte>, len: seq<byte>)
    requires |a| == |len| == 4 && |b| == |c| == 2 && |id| == |sub| == 32 && |z| == 16
    ensures var h := a + b + c + id + z + sub + len;
            && |h| == 92 && h[..4] == a && h[4..6] == b && h[6] == c[0] && h[7] == c[1]
            && h[8..40] == id && h[40..56] == z && h[56..88] == sub && h[88..92] == len
  {
    var h := a + b + c + id + z + sub + len;
    assert h[..88] == a + b + c + id + z + sub && h[..56] == a + b + c + id + z && h[..40] == a + b + c + id;
    assert h[..8] == a + b + c;
    SliceOfPrefix(h, 88, 56, 88);
    SliceOfPrefix(h, 56, 40, 56);
    SliceOfPrefix(h, 40, 8, 40);
    SliceOfPrefix(h, 8, 4, 6);
  }

  /** The header of an encoded frame, by offset: magic, protocol version, frame version, type, id, zero HashKey and
      SeqNum, the SubtreeID field, and the payload length. */
  lemma {:induction false} EncodedBytes(ver: byte, msgType: byte, id: Digest, subtreeID: Digest, payload: seq<byte>)
    requires |payload| < U32
    ensures var f := Encoded(ver, msgType, id, subtreeID, payload);
            && f.payload == payload && f.Wire() == f.header + payload && |f.header| == 92
            && f.header[..4] == [0xE3, 0xE1, 0xF3, 0xE8] && f.header[4..6] == [0x02, 0xBF]
            && f.header[6] == ver && f.header[7] == msgType && f.header[8..40] == id
            && (forall i :: 40 <= i < 56 ==> f.header[i] == 0)
            && f.header[56..88] == subtreeID && f.header[88..92] == Be(|payload|, 4)
  {
    MagicBytes();
    Be32Undone(|payload|);
    hide Be;
    var z := Fill(0, 16);
    hide Fill;
    HeaderSlices(Be(MAGIC, 4), Be(PROTO_VER, 2), [ver, msgType], id, z, subtreeID, Be(|payload| % U32, 4));
    var h := Encoded(ver, msgType, id, subtreeID, payload).header;
    forall i | 40 <= i < 56
      ensures h[i] == 0
    {
      assert h[i] == h[40..56][i - 40];
    }
  }

  /** Version 6 for anchors, 4 for block control and 5 for subtree data, which repeats its id in the SubtreeID
      field; the other two leave that field zero. */
  lemma {:induction false} SentBytes(a: Sent)
    requires |a.payload| < U32
    ensures var h := a.Frame().header;
            && |h| == 92 && a.Frame().payload == a.payload && h[8..40] == a.id && h[88..92] == Be(|a.payload|, 4)
            && (a.Anchor? ==> h[6] == 6 && h[7] == 0)
            && (a.BlockControl? ==> h[6] == 4 && h[7] == a.msgType)
            && (a.SubtreeData? ==> h[6] == 5 && h[7] == a.msgType && h[56..88] == a.id)
            && (!a.SubtreeData? ==> forall i :: 40 <= i < 88 ==> h[i] == 0)
  {
    ZeroAt(0, 32);
    match a
    case Anchor(id, p) => EncodedBytes(0x06, 0x00, id, ZERO, p); ZeroTail(a.Frame().header);
    case BlockControl(m, id, p) => EncodedBytes(0x04, m, id, ZERO, p); ZeroTail(a.Frame().header);
    case SubtreeData(m, id, p) => EncodedBytes(0x05, m, id, id, p);
  }

  lemma {:induction false} ZeroTail(h: seq<byte>)
    requires |h| == 92 && (forall i :: 40 <= i < 56 ==> h[i] == 0) && h[56..88] == ZERO
    ensures forall i :: 40 <= i < 88 ==> h[i] == 0
  {
    ZeroAt(0, 32);
    assert forall i :: 56 <= i < 88 ==> h[i] == h[56..88][i - 56];
  }

  /** A stream of this repository's own senders cut right after any header that announces a payload ends
      with io.EOF, which is logged as an orderly close, although the payload is missing. */
  lemma {:induction false} CutAfterHeader(v3: nat, maxObject: nat, a: Sent)
    requires v3 >= HEADER_SIZE && 0 < |a.payload| < U32 && |a.payload| <= maxObject
    ensures NextFrame(v3, maxObject, a.Frame().header) == Stop(Eof)
  {
    SentWellFormed(v3, maxObject, a);
    PartsOf(a);
    hide Encoded;
    EofExactly(v3, maxObject, a.Frame().header);
  }
}
