/** cmd/tunnel-sink, lane class sniffing: candidate elimination over a growing prefix. */
module Classify {
  import opened Bytes
  import opened Numbers
  import opened WireFormat
  import opened ObjFmt

  datatype Class = ClassTx | ClassSubtree | ClassBlock

  datatype Option<+T> = None | Some(value: T)

  /** Ties resolve in this order. */
  const SNIFF_ORDER: seq<Class> := [ClassTx, ClassSubtree, ClassBlock]

  const SNIFF_DECIDE_AT := 0x1_0000
  const SNIFF_CAP := 0x10_0000

  function FormatOf(c: Class): (f: Format)
    ensures Usable(f) && MinSize(f) >= 4
  {
    FormatsUsable();
    match c
    case ClassTx => TX
    case ClassSubtree => SUBTREE
    case ClassBlock => BLOCK
  }

  /** The plausibility checks at the front of walkCandidate; each waits until its fields are there. */
  predicate Plausible(c: Class, buf: seq<byte>) {
    match c
    case ClassTx => |buf| >= 4 ==> FromLe(buf[..4]) == 1 || FromLe(buf[..4]) == 2
    case ClassSubtree => |buf| >= SUBTREE_HEADER_SIZE ==> 0 < FromBe(buf[32..40]) <= 0x100_0000
    case ClassBlock =>
      |buf| >= BLOCK_PREFIX_SIZE ==>
        && FromBe(buf[80..88]) <= 0x10_0000_0000
        && FromBe(buf[88..96]) <= 0x100_0000_0000
        && 0 < FromBe(buf[96..104]) <= 0x10_0000
  }

  datatype CandScore = CandScore(viable: bool, complete: nat)

  const ELIMINATED := CandScore(false, 0)

  /** What a candidate is worth on a buffer: nothing once implausible or malformed, else its whole objects. */
  function Score(c: Class, buf: seq<byte>): CandScore {
    var w := WalkAll(FormatOf(c), buf);
    if Plausible(c, buf) && !w.bad then CandScore(true, |w.values|) else ELIMINATED
  }

  method WalkCandidate(c: Class, buf: seq<byte>) returns (s: CandScore)
    ensures s == Score(c, buf)
  {
    hide WalkAll;
    hide Parse;
    if !Plausible(c, buf) {
      return ELIMINATED;
    }
    var f, complete, off := FormatOf(c), 0, 0;
    assert buf[0..] == buf;
    while off < |buf|
      invariant off <= |buf|
      invariant complete + |WalkAll(f, buf[off..]).values| == |WalkAll(f, buf).values|
      invariant WalkAll(f, buf[off..]).bad == WalkAll(f, buf).bad
      decreases |buf| - off
    {
      WalkStep(f, buf[off..]);
      var r := Parse(f, buf[off..]);
      match r
      case Got(_, n) =>
        assert buf[off..][n..] == buf[off + n..];
        complete, off := complete + 1, off + n;
      case Short =>
        break;
      case Bad =>
        return ELIMINATED;
    }
    WalkEnd(f, buf[off..]);
    return CandScore(true, complete);
  }

  lemma WalkEnd(f: Format, s: seq<byte>)
    requires MinSize(f) > 0 && (s == [] || Parse(f, s).Short?)
    ensures WalkAll(f, s).values == [] && !WalkAll(f, s).bad
  {
  }

  function Index(c: Class): nat {
    match c
    case ClassTx => 0
    case ClassSubtree => 1
    case ClassBlock => 2
  }

  /** c is the first class in sniff order among the viable ones with the most whole objects. */
  ghost predicate IsBest(c: Class, buf: seq<byte>) {
    && Score(c, buf).viable
    && forall d: Class :: Score(d, buf).viable ==>
         || Score(d, buf).complete < Score(c, buf).complete
         || (Score(d, buf).complete == Score(c, buf).complete && Index(c) <= Index(d))
  }

  method BestCandidate(buf: seq<byte>, requireComplete: bool) returns (r: Option<Class>)
    ensures r.Some? ==> IsBest(r.value, buf) && (requireComplete ==> Score(r.value, buf).complete >= 1)
    ensures r.None? ==> forall c: Class :: Score(c, buf).viable ==> requireComplete && Score(c, buf).complete == 0
  {
    hide Score;
    var best: Option<Class>, bestScore: int := None, -1;
    for i := 0 to 3
      invariant best.None? ==> bestScore == -1 && forall c: Class :: Index(c) < i ==> !Score(c, buf).viable
      invariant best.Some? ==>
                  && bestScore >= 0 && Index(best.value) < i && Score(best.value, buf) == CandScore(true, bestScore)
                  && forall d: Class :: Index(d) < i && Score(d, buf).viable ==>
                       || Score(d, buf).complete < bestScore
                       || (Score(d, buf).complete == bestScore && Index(best.value) <= Index(d))
    {
      var c := SNIFF_ORDER[i];
      assert Index(c) == i && forall d: Class :: Index(d) == i ==> d == c;
      var s := WalkCandidate(c, buf);
      if s.viable && s.complete > bestScore {
        best, bestScore := Some(c), s.complete;
      }
    }
    if best.None? || (requireComplete && bestScore < 1) {
      return None;
    }
    return best;
  }

  ghost predicate OnlyViable(c: Class, buf: seq<byte>) {
    Score(c, buf).viable && forall d: Class :: Score(d, buf).viable ==> d == c
  }

  /** c alone among the viable classes has walked whole objects. */
  ghost predicate OnlyComplete(c: Class, buf: seq<byte>) {
    && Score(c, buf).viable && Score(c, buf).complete >= 1
    && forall d: Class :: Score(d, buf).viable && Score(d, buf).complete >= 1 ==> d == c
  }

  ghost predicate Distinct(cs: seq<Class>) {
    forall j, k :: 0 <= j < k < |cs| ==> cs[j] != cs[k]
  }

  ghost predicate AllViable(cs: seq<Class>, buf: seq<byte>, i: nat) {
    Distinct(cs) && forall c: Class :: c in cs <==> Index(c) < i && Score(c, buf).viable
  }

  ghost predicate AllComplete(cs: seq<Class>, buf: seq<byte>, i: nat) {
    Distinct(cs) && forall c: Class :: c in cs <==> Index(c) < i && Score(c, buf).viable && Score(c, buf).complete >= 1
  }

  /** Lines 497-508: the viable classes, and those of them that walked a whole object. */
  method Candidates(buf: seq<byte>) returns (viable: seq<Class>, complete: seq<Class>)
    ensures AllViable(viable, buf, 3) && AllComplete(complete, buf, 3)
  {
    hide Score;
    viable, complete := [], [];
    for i := 0 to 3
      invariant AllViable(viable, buf, i) && AllComplete(complete, buf, i)
    {
      var c := SNIFF_ORDER[i];
      assert Index(c) == i && forall d: Class :: Index(d) == i ==> d == c;
      var s := WalkCandidate(c, buf);
      if s.viable {
        viable := viable + [c];
        if s.complete >= 1 {
          complete := complete + [c];
        }
      }
    }
  }

  lemma {:induction false} ViableList(cs: seq<Class>, buf: seq<byte>)
    requires AllViable(cs, buf, 3)
    ensures |cs| == 0 ==> forall c: Class :: !Score(c, buf).viable
    ensures |cs| == 1 ==> OnlyViable(cs[0], buf)
    ensures |cs| > 1 ==> forall c: Class :: !OnlyViable(c, buf)
  {
    hide Score;
    assert forall c: Class :: Index(c) < 3;
    if |cs| == 1 {
      assert cs[0] in cs;
    } else if |cs| > 1 {
      assert cs[0] in cs && cs[1] in cs;
    }
  }

  lemma {:induction false} CompleteList(cs: seq<Class>, buf: seq<byte>)
    requires AllComplete(cs, buf, 3)
    ensures |cs| == 1 ==> OnlyComplete(cs[0], buf)
    ensures |cs| != 1 ==> forall c: Class :: !OnlyComplete(c, buf)
  {
    hide Score;
    assert forall c: Class :: Index(c) < 3;
    if |cs| == 1 {
      assert cs[0] in cs;
    } else if |cs| > 1 {
      assert cs[0] in cs && cs[1] in cs;
    }
  }

  /** What may decide for c on a buffer, `ended` when nothing follows it: the one viable class, or the one with
      whole objects, once all checks had their fields; the best class, when it has whole objects, or once there
      are 64 KiB or nothing more to come. */
  ghost predicate Evidence(c: Class, buf: seq<byte>, ended: bool) {
    && Score(c, buf).viable
    && (|| ((|buf| >= 104 || ended) && (OnlyViable(c, buf) || OnlyComplete(c, buf)))
        || (IsBest(c, buf) && (Score(c, buf).complete >= 1 || |buf| >= 0x1_0000 || ended)))
  }

  method ClassifyBuffer(buf: seq<byte>, eof: bool) returns (r: Option<Class>)
    ensures !eof && |buf| < BLOCK_PREFIX_SIZE ==> r.None?
    ensures r.Some? ==>
              || OnlyViable(r.value, buf)
              || OnlyComplete(r.value, buf)
              || ((eof || |buf| >= SNIFF_DECIDE_AT) && IsBest(r.value, buf))
    ensures r.None? && (eof || |buf| >= BLOCK_PREFIX_SIZE) ==>
              || (forall c: Class :: !Score(c, buf).viable)
              || (!eof && |buf| < SNIFF_DECIDE_AT && forall c: Class :: !OnlyViable(c, buf) && !OnlyComplete(c, buf))
    ensures r.Some? ==> Evidence(r.value, buf, eof)
  {
    hide Score;
    var viable, complete := Candidates(buf);
    var allChecked := eof || |buf| >= BLOCK_PREFIX_SIZE;
    if !allChecked {
      return None;
    }
    ViableList(viable, buf);
    CompleteList(complete, buf);
    if |viable| == 1 {
      return Some(viable[0]);
    }
    if |viable| > 1 {
      if |complete| == 1 {
        return Some(complete[0]);
      }
      if eof || |buf| >= SNIFF_DECIDE_AT {
        r := BestCandidate(buf, false);
        assert viable[0] in viable;
        return;
      }
    }
    return None;
  }

  // ---------------------------------------------------------------- growing buffers

  lemma {:induction false} PlausibleShrinks(c: Class, buf: seq<byte>, buf': seq<byte>)
    requires buf <= buf' && Plausible(c, buf')
    ensures Plausible(c, buf)
  {
    match c
    case ClassTx => if |buf| >= 4 { assert buf'[..4] == buf[..4]; }
    case ClassSubtree => if |buf| >= 40 { assert buf'[32..40] == buf[32..40]; }
    case ClassBlock =>
      if |buf| >= 104 {
        assert buf'[80..88] == buf[80..88] && buf'[88..96] == buf[88..96] && buf'[96..104] == buf[96..104];
      }
  }

  /** Once eliminated, eliminated for every extension; while viable, the object count never drops. */
  lemma {:induction false} EliminationIsFinal(c: Class, buf: seq<byte>, buf': seq<byte>)
    requires buf <= buf'
    ensures !Score(c, buf).viable ==> !Score(c, buf').viable
    ensures Score(c, buf').viable ==> Score(c, buf').complete >= Score(c, buf).complete
  {
    hide WalkAll;
    if Score(c, buf').viable {
      PlausibleShrinks(c, buf, buf');
    }
    WalkGrows(FormatOf(c), buf, buf');
  }

  /** Past the threshold the only undecided buffers are hopeless, and they stay hopeless. */
  lemma {:induction false} HopelessStays(buf: seq<byte>, buf': seq<byte>)
    requires buf <= buf' && forall c: Class :: !Score(c, buf).viable
    ensures forall c: Class :: !Score(c, buf').viable
  {
    hide Score;
    forall c: Class
      ensures !Score(c, buf').viable
    {
      EliminationIsFinal(c, buf, buf');
    }
  }

  /** Any prefix of a stream of well-formed objects whose first object is plausible keeps the true
      class alive, with exactly the whole objects of the prefix counted. */
  lemma {:induction false} TrueClassViable(c: Class, vs: seq<Value>, k: nat)
    requires FitAll(FormatOf(c), vs) && k <= |PrintMany(FormatOf(c), vs)|
    requires Plausible(c, PrintMany(FormatOf(c), vs))
    ensures var f, s := FormatOf(c), Score(c, PrintMany(FormatOf(c), vs)[..k]);
            && s.viable && s.complete <= |vs|
            && |PrintMany(f, vs[..s.complete])| <= k
            && (s.complete < |vs| ==> k < |PrintMany(f, vs[..s.complete + 1])|)
  {
    hide WalkAll;
    hide PrintMany;
    var f := FormatOf(c);
    PlausibleShrinks(c, PrintMany(f, vs)[..k], PrintMany(f, vs));
    WalkOfPrefix(f, vs, k);
    WalkOfPrefixCount(f, vs, k);
  }

  /** So whenever a single class is viable on such a stream, it is the true one. */
  lemma {:induction false} SingleViableIsTrue(c: Class, vs: seq<Value>, k: nat, d: Class)
    requires FitAll(FormatOf(c), vs) && k <= |PrintMany(FormatOf(c), vs)|
    requires Plausible(c, PrintMany(FormatOf(c), vs))
    requires OnlyViable(d, PrintMany(FormatOf(c), vs)[..k])
    ensures d == c
  {
    TrueClassViable(c, vs, k);
  }

  // ---------------------------------------------------------------- what eliminates a class

  /** A big-endian 64-bit field is within 2^(8k + j) exactly when its bytes say so. */
  lemma {:induction false} FieldWithin(s: seq<byte>, k: nat, top: byte)
    requires |s| == 8 && k < 8
    ensures FromBe(s) <= top * Pow256(7 - k) <==>
              && (forall i :: 0 <= i < k ==> s[i] == 0)
              && (s[k] < top || (s[k] == top && forall i :: k < i < 8 ==> s[i] == 0))
  {
    var p := Pow256(7 - k);
    FromBeSplit(s, k + 1);
    var a, b := FromBe(s[..k + 1]), FromBe(s[k + 1..]);
    ZeroFromBe(s[k + 1..]);
    ZeroFromBe(s[..k]);
    assert s[..k + 1][..k] == s[..k] && s[..k + 1][k] == s[k];
    assert a == 256 * FromBe(s[..k]) + s[k];
    assert forall i :: k < i < 8 ==> s[i] == s[k + 1..][i - k - 1];
    Compare(a, b, top, p);
  }

  lemma {:induction false} Compare(a: int, b: nat, top: int, p: nat)
    requires a >= 0 && b < p
    ensures a * p + b <= top * p <==> a < top || (a == top && b == 0)
  {
    if a < top {
      Distribute(a, top - a, p);
      AtLeastOnce(top - a, p);
    } else if a > top {
      Distribute(top, a - top, p);
      AtLeastOnce(a - top, p);
    }
  }

  /** The fields a class is checked by, once they are there, in bytes.  A transaction: the version word, 1 or 2,
      little-endian.  A subtree: the node count, at least 1 and at most 2^24.  A block: at most 2^36 transactions
      and 2^40 bytes, and 1 to 2^20 subtrees. */
  predicate FieldsWithin(c: Class, buf: seq<byte>) {
    match c
    case ClassTx => |buf| >= 4 ==> (buf[0] == 1 || buf[0] == 2) && buf[1] == 0 && buf[2] == 0 && buf[3] == 0
    case ClassSubtree =>
      |buf| >= 40 ==>
        && (exists i :: 32 <= i < 40 && buf[i] != 0)
        && buf[32] == buf[33] == buf[34] == buf[35] == 0
        && (buf[36] == 0 || (buf[36] == 1 && buf[37] == buf[38] == buf[39] == 0))
    case ClassBlock =>
      |buf| >= 104 ==>
        && buf[80] == buf[81] == buf[82] == 0
        && (buf[83] < 0x10 || (buf[83] == 0x10 && buf[84] == buf[85] == buf[86] == buf[87] == 0))
        && buf[88] == buf[89] == 0
        && (buf[90] == 0 || (buf[90] == 1 && buf[91] == buf[92] == buf[93] == buf[94] == buf[95] == 0))
        && (exists i :: 96 <= i < 104 && buf[i] != 0)
        && buf[96] == buf[97] == buf[98] == buf[99] == buf[100] == 0
        && (buf[101] < 0x10 || (buf[101] == 0x10 && buf[102] == buf[103] == 0))
  }

  lemma {:induction false} TxLimits(buf: seq<byte>)
    ensures Plausible(ClassTx, buf) <==> FieldsWithin(ClassTx, buf)
  {
    if |buf| >= 4 {
      Widths();
      var s := buf[..4];
      FromLeCons(s);
      SmallFromLe(s, 1);
      assert s[1..] == buf[1..4];
      ZeroFromLe(s[1..]);
    }
  }

  lemma {:induction false} NonzeroField(buf: seq<byte>, off: nat)
    requires off + 8 <= |buf|
    ensures FromBe(buf[off..off + 8]) > 0 <==> exists i :: off <= i < off + 8 && buf[i] != 0
  {
    var s := buf[off..off + 8];
    ZeroFromBe(s);
    assert forall i :: off <= i < off + 8 ==> buf[i] == s[i - off];
    if exists j :: 0 <= j < 8 && s[j] != 0 {
      var j :| 0 <= j < 8 && s[j] != 0;
      assert buf[off + j] != 0;
    }
  }

  lemma {:induction false} Within2To24(s: seq<byte>)
    requires |s| == 8
    ensures FromBe(s) <= 0x100_0000 <==>
              s[0] == s[1] == s[2] == s[3] == 0 && (s[4] == 0 || (s[4] == 1 && s[5] == s[6] == s[7] == 0))
  {
    Powers();
    FieldWithin(s, 4, 1);
  }

  lemma {:induction false} Within2To36(s: seq<byte>)
    requires |s| == 8
    ensures FromBe(s) <= 0x10_0000_0000 <==>
              s[0] == s[1] == s[2] == 0 && (s[3] < 0x10 || (s[3] == 0x10 && s[4] == s[5] == s[6] == s[7] == 0))
  {
    Powers();
    FieldWithin(s, 3, 0x10);
  }

  lemma {:induction false} Within2To40(s: seq<byte>)
    requires |s| == 8
    ensures FromBe(s) <= 0x100_0000_0000 <==>
              s[0] == s[1] == 0 && (s[2] == 0 || (s[2] == 1 && s[3] == s[4] == s[5] == s[6] == s[7] == 0))
  {
    Powers();
    FieldWithin(s, 2, 1);
  }

  lemma {:induction false} Within2To20(s: seq<byte>)
    requires |s| == 8
    ensures FromBe(s) <= 0x10_0000 <==>
              s[0] == s[1] == s[2] == s[3] == s[4] == 0 && (s[5] < 0x10 || (s[5] == 0x10 && s[6] == s[7] == 0))
  {
    Powers();
    FieldWithin(s, 5, 0x10);
  }

  lemma {:induction false} SubtreeLimits(buf: seq<byte>)
    ensures Plausible(ClassSubtree, buf) <==> FieldsWithin(ClassSubtree, buf)
  {
    if |buf| >= 40 {
      hide FromBe;
      Within2To24(buf[32..40]);
      NonzeroField(buf, 32);
      SameBytes(buf, 32);
    }
  }

  lemma {:induction false} BlockLimits(buf: seq<byte>)
    ensures Plausible(ClassBlock, buf) <==> FieldsWithin(ClassBlock, buf)
  {
    if |buf| >= 104 {
      hide FromBe;
      Within2To36(buf[80..88]);
      Within2To40(buf[88..96]);
      Within2To20(buf[96..104]);
      NonzeroField(buf, 96);
      SameBytes(buf, 80);
      SameBytes(buf, 88);
      SameBytes(buf, 96);
    }
  }

  lemma {:induction false} Powers()
    ensures Pow256(2) == 0x1_0000 && Pow256(3) == 0x100_0000 && Pow256(4) == 0x1_0000_0000 && Pow256(5) == 0x100_0000_0000
  {
    Widths();
    assert Pow256(3) == 256 * Pow256(2);
    assert Pow256(5) == 256 * Pow256(4);
  }

  lemma {:induction false} SameBytes(buf: seq<byte>, off: nat)
    requires off + 8 <= |buf|
    ensures var s := buf[off..off + 8];
            && s[0] == buf[off] && s[1] == buf[off + 1] && s[2] == buf[off + 2] && s[3] == buf[off + 3]
            && s[4] == buf[off + 4] && s[5] == buf[off + 5] && s[6] == buf[off + 6] && s[7] == buf[off + 7]
  {
  }

  /** Whole objects followed by bytes that are condemned: the class is out. */
  lemma {:induction false} MalformedEliminates(c: Class, vs: seq<Value>, t: seq<byte>)
    requires FitAll(FormatOf(c), vs) && Parse(FormatOf(c), t).Bad?
    ensures !Score(c, PrintMany(FormatOf(c), vs) + t).viable
  {
    var f := FormatOf(c);
    EmptyShort(f);
    WalkSplits(f, vs, t);
    WalkStep(f, t);
  }

  /** Whole objects followed by bytes that are still open: a plausible class is credited with exactly those. */
  lemma {:induction false} WholeObjectsCount(c: Class, vs: seq<Value>, t: seq<byte>)
    requires FitAll(FormatOf(c), vs) && (t == [] || Parse(FormatOf(c), t).Short?)
    requires Plausible(c, PrintMany(FormatOf(c), vs) + t)
    ensures Score(c, PrintMany(FormatOf(c), vs) + t) == CandScore(true, |vs|)
  {
    var f := FormatOf(c);
    WalkSplits(f, vs, t);
    if t == [] { NothingWalked(f); } else { WalkStep(f, t); }
  }

  /** The plausibility checks are those limits. */
  lemma {:induction false} LimitsExactly(c: Class, buf: seq<byte>)
    ensures Plausible(c, buf) <==> FieldsWithin(c, buf)
  {
    hide Plausible;
    hide FieldsWithin;
    match c
    case ClassTx => TxLimits(buf);
    case ClassSubtree => SubtreeLimits(buf);
    case ClassBlock => BlockLimits(buf);
  }

  /** A class is viable exactly when its fields are within their limits and no malformed object follows whole ones. */
  lemma {:induction false} ViableExactly(c: Class, buf: seq<byte>)
    ensures Score(c, buf).viable <==>
              && FieldsWithin(c, buf)
              && !exists vs, t :: FitAll(FormatOf(c), vs) && Parse(FormatOf(c), t).Bad? && buf == PrintMany(FormatOf(c), vs) + t
  {
    var f := FormatOf(c);
    hide Parse;
    hide PrintMany;
    hide FitAll;
    LimitsExactly(c, buf);
    hide FieldsWithin;
    if Plausible(c, buf) && !Score(c, buf).viable {
      WalkSound(f, buf);
      var w := WalkAll(f, buf);
      NotBadAtEnd(f, buf);
      assert FitAll(f, w.values) && Parse(f, w.tail).Bad? && buf == PrintMany(f, w.values) + w.tail;
    }
    if exists vs, t :: FitAll(f, vs) && Parse(f, t).Bad? && buf == PrintMany(f, vs) + t {
      var vs, t :| FitAll(f, vs) && Parse(f, t).Bad? && buf == PrintMany(f, vs) + t;
      MalformedEliminates(c, vs, t);
    }
  }

  lemma {:induction false} NotBadAtEnd(f: Format, s: seq<byte>)
    requires MinSize(f) > 0
    ensures WalkAll(f, s).bad ==> WalkAll(f, s).tail != []
    decreases |s|
  {
    if s != [] {
      WalkStep(f, s);
      if Parse(f, s).Got? { NotBadAtEnd(f, s[Parse(f, s).n..]); }
    }
  }

  /** Ties go to transactions, then to subtrees: the pick has strictly more whole objects than the viable
      classes before it, and at least as many as those after it. */
  lemma {:induction false} TiesInOrder(c: Class, buf: seq<byte>)
    requires IsBest(c, buf)
    ensures c == ClassSubtree || c == ClassBlock ==>
              Score(ClassTx, buf).viable ==> Score(ClassTx, buf).complete < Score(c, buf).complete
    ensures c == ClassBlock ==>
              Score(ClassSubtree, buf).viable ==> Score(ClassSubtree, buf).complete < Score(c, buf).complete
    ensures forall d: Class :: Score(d, buf).viable ==> Score(d, buf).complete <= Score(c, buf).complete
  {
    hide Score;
  }
}
