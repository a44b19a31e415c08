/** cmd/tunnel-sink: sniffing a connection that arrives in arbitrary chunks, and the two stream pumps. */
module Relay {
  import opened Bytes
  import opened WireFormat
  import opened Classify
  import Frames
  import Objects

  /** What one conn.Read brings: some bytes, or a read deadline that fired on an idle stream.  The
      connection ends when the events do. */
  datatype Event = Data(bytes: seq<byte>) | Idle

  function Flat(es: seq<Event>): seq<byte> {
    if es == [] then []
    else if es[0].Data? then es[0].bytes + Flat(es[1..])
    else Flat(es[1..])
  }

  /** io.MultiReader(pre, conn) behind a buffer: bytes already read, then what the connection brings. */
  class Source {
    var buf: seq<byte>
    var events: seq<Event>

    constructor (events: seq<Event>)
      ensures buf == [] && this.events == events && Rest() == Flat(events)
    {
      buf := [];
      this.events := events;
    }

    /** Every byte still to come. */
    ghost function Rest(): seq<byte>
      reads this
    {
      buf + Flat(events)
    }

    /** One conn.Read appended to the buffer; without a deadline an idle stream only means waiting. */
    method Receive() returns (idle: bool)
      requires events != []
      modifies this
      ensures Rest() == old(Rest())
      ensures |events| < |old(events)| && old(buf) <= buf && (idle ==> buf == old(buf))
    {
      idle := events[0].Idle?;
      if !idle {
        Assoc(buf, events[0].bytes, Flat(events[1..]));
        buf := buf + events[0].bytes;
      }
      events := events[1..];
    }

    /** io.ReadFull: n bytes however they were chunked, or else everything that is left. */
    method ReadFull(n: nat) returns (ok: bool, b: seq<byte>)
      modifies this
      ensures ok <==> n <= |old(Rest())|
      ensures ok ==> b == old(Rest())[..n] && Rest() == old(Rest())[n..]
      ensures !ok ==> b == old(Rest()) && Rest() == []
    {
      while |buf| < n && events != []
        invariant Rest() == old(Rest())
        decreases |events|
      {
        var _ := Receive();
      }
      if |buf| < n {
        b, buf := buf, [];
        return false, b;
      }
      b, buf := buf[..n], buf[n..];
      return true, b;
    }
  }

  /** The relay's outgoing connection: `good` more writes succeed, then one fails after `torn` of its bytes. */
  class Sink {
    var out: seq<byte>
    var good: nat
    const torn: nat

    constructor (good: nat, torn: nat)
      ensures out == [] && this.good == good
    {
      out := [];
      this.good := good;
      this.torn := torn;
    }

    method Write(b: seq<byte>) returns (ok: bool)
      modifies this
      ensures ok <==> old(good) > 0
      ensures ok ==> out == old(out) + b && good == old(good) - 1
      ensures !ok ==> exists n :: 0 <= n <= |b| && out == old(out) + b[..n]
    {
      if good == 0 {
        out := out + b[..if torn <= |b| then torn else |b|];
        return false;
      }
      out := out + b;
      good := good - 1;
      return true;
    }
  }

  // ---------------------------------------------------------------- sniffClass

  datatype Sniffed = Framed | Lane(class_: Class) | StreamEnded | CapReached

  predicate StartsWithMagic(s: seq<byte>) {
    |s| >= 4 && FromBe(s[..4]) == Frames.MAGIC
  }

  lemma {:induction false} MagicFront(s: seq<byte>)
    ensures StartsWithMagic(s) <==> |s| >= 4 && s[..4] == [0xE3, 0xE1, 0xF3, 0xE8]
  {
    if |s| >= 4 { Frames.MagicExactly(s); }
  }

  /** On success src replays the consumed prefix (it is src.buf) in front of the rest of the connection. */
  method SniffClass(src: Source) returns (r: Sniffed)
    requires src.buf == []
    modifies src
    ensures src.Rest() == old(src.Rest())
    ensures r.Framed? <==> StartsWithMagic(old(src.Rest()))
    ensures src.buf <= old(src.Rest())
    ensures r.Lane? ==> Evidence(r.class_, src.buf, src.buf == old(src.Rest()))
    ensures r.StreamEnded? ==> forall c: Class :: !Score(c, old(src.Rest())).viable
    ensures r.CapReached? ==> |src.buf| >= SNIFF_CAP && forall c: Class :: !Score(c, old(src.Rest())).viable
  {
    hide Score;
    hide Plausible;
    var eof := false;
    while true
      invariant src.Rest() == old(src.Rest())
      invariant eof ==> src.events == []
      decreases |src.events|, !eof
    {
      MagicLater(src.buf, src.Rest());
      if StartsWithMagic(src.buf) {
        return Framed;
      }
      var c := ClassifyBuffer(src.buf, eof);
      if c.Some? {
        return Lane(c.value);
      }
      if eof {
        assert src.buf == src.Rest();
        return StreamEnded;
      }
      if |src.buf| >= SNIFF_CAP {
        HopelessStays(src.buf, src.Rest());
        return CapReached;
      }
      if src.events == [] {
        eof := true;
      } else {
        var idle := src.Receive();
        if idle {
          var b := BestCandidate(src.buf, true);
          if b.Some? {
            NoObjectYet(b.value, src.buf);
            return Lane(b.value);
          }
        }
      }
    }
  }

  lemma {:induction false} MagicLater(buf: seq<byte>, rest: seq<byte>)
    requires buf <= rest
    ensures StartsWithMagic(buf) ==> StartsWithMagic(rest)
    ensures |buf| >= 4 || buf == rest ==> (StartsWithMagic(rest) <==> StartsWithMagic(buf))
  {
    if |buf| >= 4 {
      assert buf[..4] == rest[..4];
    }
  }

  lemma {:induction false} NoObjectYet(c: Class, buf: seq<byte>)
    ensures |buf| < 4 ==> Score(c, buf).complete == 0
  {
    var f := FormatOf(c);
    if buf != [] {
      WalkStep(f, buf);
      AtLeastMinSize(f, buf);
    }
  }

  // ---------------------------------------------------------------- pumpFramed

  method ReadHeader(src: Source, v3: nat) returns (r: Frames.HeaderRead)
    requires v3 >= Frames.HEADER_SIZE
    modifies src
    ensures r == Frames.HeaderAt(v3, old(src.Rest()))
    ensures r.Header? ==> src.Rest() == old(src.Rest())[|r.bytes|..]
  {
    hide FromBe;
    hide Flat;
    ghost var s := src.Rest();
    var ok, hdr := src.ReadFull(Frames.HEADER_SIZE);
    if !ok {
      return Frames.NoHeader(Frames.ShortRead(|hdr|));
    }
    assert hdr[..4] == s[..4] && hdr[6] == s[6];
    if Frames.MagicOf(hdr) != Frames.MAGIC {
      return Frames.NoHeader(Frames.LostSync);
    }
    if hdr[6] == 3 {
      var ok3, more := src.ReadFull(v3 - Frames.HEADER_SIZE);
      if !ok3 {
        return Frames.NoHeader(Frames.ShortRead(|more|));
      }
      TwoReads(s, Frames.HEADER_SIZE, v3 - Frames.HEADER_SIZE);
      hdr := hdr + more;
    }
    return Frames.Header(hdr);
  }

  lemma TwoReads(s: seq<byte>, n: nat, m: nat)
    requires n + m <= |s|
    ensures s[..n] + s[n..][..m] == s[..n + m] && s[n..][m..] == s[n + m..]
  {
  }

  /** One round of pumpFramed's loop: a frame, or the reason the stream ends here. */
  method ReadFrame(src: Source, v3: nat, maxObject: nat) returns (r: Frames.Next)
    requires v3 >= Frames.HEADER_SIZE
    modifies src
    ensures r == Frames.NextFrame(v3, maxObject, old(src.Rest()))
    ensures r.Got? ==> src.Rest() == old(src.Rest())[r.n..]
  {
    hide FromBe;
    hide Flat;
    hide Frames.HeaderAt;
    ghost var s := src.Rest();
    var h := ReadHeader(src, v3);
    if h.NoHeader? {
      return Frames.Stop(h.end);
    }
    var hdr := h.bytes;
    if hdr[6] == 1 {
      return Frames.Stop(Frames.Legacy);
    }
    var payLen := Frames.PayloadLen(hdr);
    if payLen > maxObject {
      return Frames.Stop(Frames.TooLarge);
    }
    var okP, payload := src.ReadFull(payLen);
    if !okP {
      return Frames.Stop(Frames.ShortRead(|payload|));
    }
    TwoReads(s, |hdr|, payLen);
    return Frames.Got(Frames.Frame(hdr, payload), |hdr| + payLen);
  }

  /** Two writes, as the source forwards header and payload. */
  method Forward(sink: Sink, f: Frames.Frame) returns (ok: bool)
    modifies sink
    ensures ok <==> old(sink.good) >= 2
    ensures ok ==> sink.out == old(sink.out) + f.Wire() && sink.good == old(sink.good) - 2
    ensures !ok ==> exists n :: 0 <= n <= |f.Wire()| && sink.out == old(sink.out) + f.Wire()[..n]
  {
    ghost var out0 := sink.out;
    ok := sink.Write(f.header);
    if !ok {
      ghost var n :| 0 <= n <= |f.header| && sink.out == out0 + f.header[..n];
      assert f.header[..n] == f.Wire()[..n];
      return;
    }
    ok := sink.Write(f.payload);
    Assoc(out0, f.header, f.payload);
    if !ok {
      ghost var n :| 0 <= n <= |f.payload| && sink.out == out0 + f.header + f.payload[..n];
      assert f.Wire()[..|f.header| + n] == f.header + f.payload[..n];
      Assoc(out0, f.header, f.payload[..n]);
    }
  }

  /** frames are those logged.  Whatever is written is a prefix of the input; while writes succeed it is
      exactly the complete frames of the input, for every chunking of it. */
  method PumpFramed(src: Source, sink: Sink, v3: nat, maxObject: nat)
    returns (frames: seq<Frames.Frame>, end: Frames.End)
    requires v3 >= Frames.HEADER_SIZE
    modifies src, sink
    ensures var all := Frames.FramesOf(v3, maxObject, old(src.Rest()));
            && frames <= all.frames
            && (end != Frames.RelayFailed ==>
                  && frames == all.frames && end == all.end
                  && sink.out == old(sink.out) + Frames.PrintFrames(all.frames))
            && (old(sink.good) >= 2 * |all.frames| ==> end != Frames.RelayFailed)
    ensures exists n :: 0 <= n <= |old(src.Rest())| && sink.out == old(sink.out) + old(src.Rest())[..n]
  {
    hide Frames.NextFrame;
    hide Frames.PrintFrames;
    hide Frames.FramesOf;
    ghost var s := src.Rest();
    ghost var all := Frames.FramesOf(v3, maxObject, s);
    Frames.FramesSound(v3, maxObject, s);
    frames := [];
    Begun(s);
    while true
      invariant all.frames == frames + Frames.FramesOf(v3, maxObject, src.Rest()).frames
      invariant all.end == Frames.FramesOf(v3, maxObject, src.Rest()).end
      invariant s == Frames.PrintFrames(frames) + src.Rest()
      invariant sink.out == old(sink.out) + Frames.PrintFrames(frames)
      invariant sink.good + 2 * |frames| == old(sink.good)
      decreases |src.Rest()|
    {
      ghost var left, out0 := src.Rest(), sink.out;
      var r := ReadFrame(src, v3, maxObject);
      FrameStep(v3, maxObject, left);
      if r.Stop? {
        Written(s, Frames.PrintFrames(frames), left, 0);
        assert sink.out == old(sink.out) + s[..|Frames.PrintFrames(frames)|];
        return frames, r.end;
      }
      var ok := Forward(sink, r.frame);
      if !ok {
        ghost var n :| 0 <= n <= |r.frame.Wire()| && sink.out == out0 + r.frame.Wire()[..n];
        Written(s, Frames.PrintFrames(frames), left, n);
        assert r.frame.Wire()[..n] == left[..n];
        Assoc(old(sink.out), Frames.PrintFrames(frames), left[..n]);
        return frames, Frames.RelayFailed;
      }
      FrameDone(v3, maxObject, s, frames, left, r.frame, r.n);
      Assoc(old(sink.out), Frames.PrintFrames(frames), r.frame.Wire());
      frames := frames + [r.frame];
    }
  }

  lemma Begun(s: seq<byte>)
    ensures Frames.PrintFrames([]) == [] && [] + s == s
  {
  }

  lemma FrameStep(v3: nat, maxObject: nat, s: seq<byte>)
    requires v3 >= Frames.HEADER_SIZE
    ensures var r, all := Frames.NextFrame(v3, maxObject, s), Frames.FramesOf(v3, maxObject, s);
            && (r.Stop? ==> all == Frames.Framing([], s, r.end))
            && (r.Got? ==>
                  var more := Frames.FramesOf(v3, maxObject, s[r.n..]);
                  all == Frames.Framing([r.frame] + more.frames, more.rest, more.end))
  {
  }

  /** The accounts after one more frame. */
  lemma {:induction false} FrameDone(v3: nat, maxObject: nat, s: seq<byte>, frames: seq<Frames.Frame>,
                                     left: seq<byte>, f: Frames.Frame, n: nat)
    requires v3 >= Frames.HEADER_SIZE && Frames.NextFrame(v3, maxObject, left) == Frames.Got(f, n)
    requires s == Frames.PrintFrames(frames) + left
    ensures Frames.PrintFrames(frames + [f]) == Frames.PrintFrames(frames) + f.Wire()
    ensures s == Frames.PrintFrames(frames + [f]) + left[n..]
    ensures var more := Frames.FramesOf(v3, maxObject, left[n..]).frames; frames + ([f] + more) == frames + [f] + more
  {
    hide Frames.FramesOf;
    PrintFramesAppend(frames, f);
    Assoc(Frames.PrintFrames(frames), left[..n], left[n..]);
    assert left == left[..n] + left[n..];
  }

  lemma Written(s: seq<byte>, done: seq<byte>, left: seq<byte>, n: nat)
    requires s == done + left && n <= |left|
    ensures s[..|done| + n] == done + left[..n]
    ensures s[..|done|] == done
  {
  }

  lemma {:induction false} PrintFramesAppend(fs: seq<Frames.Frame>, f: Frames.Frame)
    ensures Frames.PrintFrames(fs + [f]) == Frames.PrintFrames(fs) + f.Wire()
  {
    if fs == [] {
      assert fs + [f] == [f] && [f][1..] == [];
      assert Frames.PrintFrames([f]) == f.Wire() + Frames.PrintFrames([]);
    } else {
      PrintFramesAppend(fs[1..], f);
      assert (fs + [f])[1..] == fs[1..] + [f];
      Assoc(fs[0].Wire(), Frames.PrintFrames(fs[1..]), f.Wire());
    }
  }

  // ---------------------------------------------------------------- pumpClassStream

  datatype NextRead = Object(v: Value, bytes: seq<byte>) | NoObject(end: Objects.End)

  /** Reader.Next: read until the buffered bytes hold one object, cannot hold one, exceed the limit, or the
      stream ends.  Prefix stability makes the answer independent of the chunking. */
  method ReadObject(src: Source, f: Format, maxObject: nat) returns (r: NextRead)
    modifies src
    ensures match Objects.NextObject(f, maxObject, old(src.Rest()))
            case Got(v, n) => r == Object(v, old(src.Rest())[..n]) && src.Rest() == old(src.Rest())[n..]
            case Stop(e) => r == NoObject(e)
  {
    hide Parse;
    while Parse(f, Objects.Front(src.buf, maxObject)).Short? && |src.buf| <= maxObject && src.events != []
      invariant src.Rest() == old(src.Rest())
      decreases |src.events|
    {
      var _ := src.Receive();
    }
    Decided(f, maxObject, src.buf, src.Rest(), src.events == []);
    match Objects.NextObject(f, maxObject, src.buf)
    case Stop(e) =>
      return NoObject(e);
    case Got(v, n) =>
      var obj := src.buf[..n];
      assert src.buf + Flat(src.events) == obj + (src.buf[n..] + Flat(src.events));
      src.buf := src.buf[n..];
      return Object(v, obj);
  }

  /** The buffer a read loop stops at gives the verdict of everything still to come. */
  lemma {:induction false} Decided(f: Format, maxObject: nat, buf: seq<byte>, rest: seq<byte>, ended: bool)
    requires buf <= rest && (ended ==> buf == rest)
    requires !Parse(f, Objects.Front(buf, maxObject)).Short? || |buf| > maxObject || ended
    ensures Objects.NextObject(f, maxObject, rest) == Objects.NextObject(f, maxObject, buf)
  {
    hide Parse;
    if |buf| > maxObject {
      assert rest[..maxObject] == buf[..maxObject];
    } else if !ended {
      Stable(f, buf, Objects.Front(rest, maxObject));
    }
  }

  /** objs are the objects logged.  Whatever is written is a prefix of the input; while writes succeed it is
      exactly the objects the lane yields, for every chunking of it. */
  method PumpClassStream(src: Source, sink: Sink, c: Class, maxObject: nat) returns (objs: seq<Value>, end: Objects.End)
    modifies src, sink
    ensures var f, all := FormatOf(c), Objects.ObjectsOf(FormatOf(c), maxObject, old(src.Rest()));
            && objs <= all.objects
            && (end != Objects.RelayFailed ==>
                  objs == all.objects && end == all.end && sink.out == old(sink.out) + PrintMany(f, all.objects))
            && (old(sink.good) >= |all.objects| ==> end != Objects.RelayFailed)
    ensures exists n :: 0 <= n <= |old(src.Rest())| && sink.out == old(sink.out) + old(src.Rest())[..n]
  {
    hide Objects.ObjectsOf;
    hide Objects.NextObject;
    hide PrintMany;
    hide Print;
    hide Parse;
    hide Fits;
    hide Flat;
    hide FormatOf;
    var f := FormatOf(c);
    ghost var s := src.Rest();
    ghost var all := Objects.ObjectsOf(f, maxObject, s);
    objs := [];
    Nothing(f, s);
    while true
      invariant all.objects == objs + Objects.ObjectsOf(f, maxObject, src.Rest()).objects
      invariant all.end == Objects.ObjectsOf(f, maxObject, src.Rest()).end
      invariant s == PrintMany(f, objs) + src.Rest()
      invariant sink.out == old(sink.out) + PrintMany(f, objs)
      invariant sink.good + |objs| == old(sink.good)
      decreases |src.Rest()|
    {
      ghost var left, out0 := src.Rest(), sink.out;
      var r := ReadObject(src, f, maxObject);
      Objects.ObjectStep(f, maxObject, left);
      if r.NoObject? {
        Written(s, PrintMany(f, objs), left, 0);
        assert sink.out == old(sink.out) + s[..|PrintMany(f, objs)|];
        return objs, r.end;
      }
      var ok := sink.Write(r.bytes);
      if !ok {
        ghost var n :| 0 <= n <= |r.bytes| && sink.out == out0 + r.bytes[..n];
        Written(s, PrintMany(f, objs), left, n);
        assert r.bytes[..n] == left[..n];
        Assoc(old(sink.out), PrintMany(f, objs), left[..n]);
        return objs, Objects.RelayFailed;
      }
      ObjectDone(f, maxObject, s, objs, left, r.v, |r.bytes|);
      Assoc(old(sink.out), PrintMany(f, objs), r.bytes);
      ghost var more := Objects.ObjectsOf(f, maxObject, src.Rest()).objects;
      assert objs + ([r.v] + more) == objs + [r.v] + more;
      objs := objs + [r.v];
    }
  }

  lemma Nothing(f: Format, s: seq<byte>)
    ensures PrintMany(f, []) == [] && [] + s == s
  {
  }

  lemma {:induction false} OneMoreObject(f: Format, objs: seq<Value>, v: Value)
    ensures PrintMany(f, objs + [v]) == PrintMany(f, objs) + Print(f, v)
  {
    PrintManyAppend(f, objs, [v]);
    PrintOne(f, v);
  }

  /** The accounts after one more object. */
  lemma {:induction false} ObjectDone(f: Format, maxObject: nat, s: seq<byte>, objs: seq<Value>,
                                      left: seq<byte>, v: Value, n: nat)
    requires Usable(f) && Objects.NextObject(f, maxObject, left) == Objects.Next.Got(v, n)
    requires s == PrintMany(f, objs) + left
    ensures PrintMany(f, objs + [v]) == PrintMany(f, objs) + left[..n]
    ensures s == PrintMany(f, objs + [v]) + left[n..]
  {
    Objects.NextExactly(f, maxObject, left);
    hide Objects.NextObject;
    ParsePrint(f, left);
    hide Parse;
    hide Fits;
    OneMoreObject(f, objs, v);
    hide PrintMany;
    hide Print;
    Assoc(PrintMany(f, objs), left[..n], left[n..]);
    assert left == left[..n] + left[n..];
  }

  // ---------------------------------------------------------------- end to end

  /** The ingress ports of the edge. */
  datatype Ports = Ports(tx: nat, subtree: nat, block: nat)

  /** The bytes a sniffed connection has to deliver: the complete frames, or the whole objects of its class. */
  ghost function Delivery(r: Sniffed, v3: nat, maxObject: nat, s: seq<byte>): seq<byte>
    requires v3 >= Frames.HEADER_SIZE
  {
    match r
    case Framed => Frames.PrintFrames(Frames.FramesOf(v3, maxObject, s).frames)
    case Lane(c) => PrintMany(FormatOf(c), Objects.ObjectsOf(FormatOf(c), maxObject, s).objects)
    case _ => []
  }

  /** How many writes that takes. */
  ghost function Writes(r: Sniffed, v3: nat, maxObject: nat, s: seq<byte>): nat
    requires v3 >= Frames.HEADER_SIZE
  {
    match r
    case Framed => 2 * |Frames.FramesOf(v3, maxObject, s).frames|
    case Lane(c) => |Objects.ObjectsOf(FormatOf(c), maxObject, s).objects|
    case _ => 0
  }

  /** sniffClass, a dial that may fail, then the pump for the lane on the replayed prefix and the rest.  The
      class relayed is one that the first `seen` bytes decided for, and the port is its own.  What is written is
      always a prefix of the input; a stream that starts with the network magic comes out as exactly its
      complete frames, any other that is classified as exactly its whole objects, verbatim and however chunked. */
  method RelayConnection(events: seq<Event>, sink: Sink, v3: nat, maxObject: nat, dialed: bool, ports: Ports)
    returns (r: Sniffed, port: nat, ghost seen: nat)
    requires v3 >= Frames.HEADER_SIZE
    modifies sink
    ensures exists n :: 0 <= n <= |Flat(events)| && sink.out == old(sink.out) + Flat(events)[..n]
    ensures r.Framed? <==> StartsWithMagic(Flat(events))
    ensures seen <= |Flat(events)|
    ensures r.Lane? ==> Evidence(r.class_, Flat(events)[..seen], seen == |Flat(events)|)
    ensures r.Framed? || r == Lane(ClassTx) ==> port == ports.tx
    ensures r == Lane(ClassSubtree) ==> port == ports.subtree
    ensures r == Lane(ClassBlock) ==> port == ports.block
    ensures dialed && old(sink.good) >= Writes(r, v3, maxObject, Flat(events)) ==>
              sink.out == old(sink.out) + Delivery(r, v3, maxObject, Flat(events))
    ensures !dialed ==> sink.out == old(sink.out)
    ensures r.StreamEnded? || r.CapReached? ==>
              sink.out == old(sink.out) && forall c: Class :: !Score(c, Flat(events)).viable
  {
    hide Score;
    hide Evidence;
    hide PrintMany;
    hide Frames.FramesOf;
    hide Frames.PrintFrames;
    hide Objects.ObjectsOf;
    var src := new Source(events);
    r := SniffClass(src);
    seen := |src.buf|;
    assert src.buf == Flat(events)[..seen];
    port := ports.tx;
    if r.Lane? {
      match r.class_
      case ClassSubtree => port := ports.subtree;
      case ClassBlock => port := ports.block;
      case ClassTx =>
    }
    assert Flat(events)[..0] == [] && sink.out == old(sink.out) + [];
    if r.StreamEnded? || r.CapReached? || !dialed {
      return;
    }
    match r
    case Framed =>
      var _, _ := PumpFramed(src, sink, v3, maxObject);
    case Lane(c) =>
      var _, _ := PumpClassStream(src, sink, c, maxObject);
  }
}
