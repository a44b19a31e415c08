/** The three object classes of the push lanes, as formats: transactions (BRC-12 raw and BRC-30
    Extended Format), BRC-143 subtrees and BRC-144 blocks. */
module ObjFmt {
  import opened Bytes
  import opened WireFormat

  const EF_MARKER: seq<byte> := [0, 0, 0, 0, 0, 0xEF]

  const RAW_INPUT := Then(Fixed(36), Then(Blob(Compact), Fixed(4)))
  const EF_INPUT := Then(Fixed(36), Then(Blob(Compact), Then(Fixed(4), Then(Fixed(8), Blob(Compact)))))
  const OUTPUT := Then(Fixed(8), Blob(Compact))

  function Body(input: Format): Format {
    Then(Many(Compact, input), Then(Many(Compact, OUTPUT), Fixed(4)))
  }

  const RAW_BODY := Body(RAW_INPUT)
  const EF_BODY := Then(Literal(EF_MARKER), Body(EF_INPUT))

  /** version, then either the EF marker (first byte zero) or a non-zero input count. */
  const TX := Then(Fixed(4), IfZero(EF_BODY, RAW_BODY))

  const SUBTREE_HEADER_SIZE := 40
  const SUBTREE := Then(Fixed(32), Many(Be8, Fixed(32)))

  const BLOCK_PREFIX_SIZE := 104
  const BLOCK_TAIL := Then(TX, Then(Fixed(8), Blob(Be8)))
  const BLOCK_BODY := Then(Many(Be8, Fixed(32)), BLOCK_TAIL)
  const BLOCK := Then(Fixed(80), Then(Fixed(8), Then(Fixed(8), BLOCK_BODY)))

  lemma {:induction false} FormatsUsable()
    ensures Usable(TX) && Usable(SUBTREE) && Usable(BLOCK)
    ensures MinSize(TX) >= 4 && MinSize(SUBTREE) == SUBTREE_HEADER_SIZE && MinSize(BLOCK) >= BLOCK_PREFIX_SIZE
  {
    assert Usable(RAW_INPUT) && Usable(EF_INPUT) && Usable(OUTPUT);
    assert Usable(Body(RAW_INPUT)) && Usable(Body(EF_INPUT));
    assert MinSize(Body(RAW_INPUT)) >= 1 && MinSize(Body(EF_INPUT)) >= 1;
    assert Usable(EF_BODY) && MinSize(EF_BODY) >= 6;
    assert Usable(IfZero(EF_BODY, RAW_BODY)) && MinSize(IfZero(EF_BODY, RAW_BODY)) >= 1;
    assert Usable(TX) && MinSize(TX) >= 4;
    assert MinSize(Many(Be8, Fixed(32))) == 8 && Usable(Many(Be8, Fixed(32)));
    assert Usable(BLOCK_TAIL) && Usable(BLOCK_BODY) && MinSize(BLOCK_BODY) >= 8;
  }

  // ---------------------------------------------------------------- values

  function Input(prevout: seq<byte>, script: seq<byte>, sequence: seq<byte>): Value {
    Pair(Raw(prevout), Pair(Raw(script), Raw(sequence)))
  }

  function EFInput(prevout: seq<byte>, script: seq<byte>, sequence: seq<byte>,
                   satoshis: seq<byte>, locking: seq<byte>): Value {
    Pair(Raw(prevout), Pair(Raw(script), Pair(Raw(sequence), Pair(Raw(satoshis), Raw(locking)))))
  }

  function Output(value: seq<byte>, script: seq<byte>): Value {
    Pair(Raw(value), Raw(script))
  }

  function RawTx(version: seq<byte>, ins: seq<Value>, outs: seq<Value>, locktime: seq<byte>): Value {
    Pair(Raw(version), OnNonzero(Pair(List(ins), Pair(List(outs), Raw(locktime)))))
  }

  function EFTx(version: seq<byte>, ins: seq<Value>, outs: seq<Value>, locktime: seq<byte>): Value {
    Pair(Raw(version), OnZero(Pair(Raw(EF_MARKER), Pair(List(ins), Pair(List(outs), Raw(locktime))))))
  }

  /** The fields of a BRC-144 block object. */
  datatype Block = Block(header: seq<byte>, txCount: nat, size: nat, roots: seq<Value>,
                         coinbase: Value, height: nat, bump: seq<byte>)
  {
    function Value(): Value {
      Pair(Raw(header), Pair(Raw(Be(txCount, 8)), Pair(Raw(Be(size, 8)),
           Pair(List(roots), Pair(coinbase, Pair(Raw(Be(height, 8)), Raw(bump)))))))
    }
  }

  // ---------------------------------------------------------------- raw and EF

  /** objfmt.IsEF: the marker stands where a raw transaction has its input count. */
  predicate IsEF(s: seq<byte>) {
    |s| >= 10 && s[4..10] == EF_MARKER
  }

  lemma {:induction false} PrintTx(v: Value)
    requires Fits(TX, v)
    ensures v.Pair? && v.fst.Raw?
    ensures v.snd.OnZero? ==> Print(TX, v) == v.fst.bytes + (EF_MARKER + Print(Body(EF_INPUT), v.snd.v.snd))
    ensures v.snd.OnNonzero? ==> Print(TX, v) == v.fst.bytes + Print(RAW_BODY, v.snd.v)
    ensures (v.snd.OnZero? || v.snd.OnNonzero?) && |v.fst.bytes| == 4
    ensures v.snd.OnNonzero? ==> Print(RAW_BODY, v.snd.v) != [] && Print(RAW_BODY, v.snd.v)[0] != 0
  {
    assert Fits(IfZero(EF_BODY, RAW_BODY), v.snd) && Fits(Fixed(4), v.fst);
  }

  /** Whatever follows it in the stream, a transaction is read as the kind it was written as. */
  lemma {:induction false} KindNeverConfused(v: Value, rest: seq<byte>)
    requires Fits(TX, v)
    ensures IsEF(Print(TX, v) + rest) <==> v.snd.OnZero?
  {
    hide Print;
    hide Fits;
    PrintTx(v);
    var s := Print(TX, v) + rest;
    if v.snd.OnZero? {
      assert s[4..10] == EF_MARKER;
    } else {
      assert s[4] == Print(RAW_BODY, v.snd.v)[0];
    }
  }

  /** The EF input without its spent amount and spent locking script. */
  function DropExtras(i: Value): Value
    requires Fits(EF_INPUT, i)
  {
    Pair(i.fst, Pair(i.snd.fst, i.snd.snd.fst))
  }

  /** The bytes DropExtras removes. */
  function ExtraSize(i: Value): nat
    requires Fits(EF_INPUT, i)
  {
    |Print(Then(Fixed(8), Blob(Compact)), i.snd.snd.snd)|
  }

  function DropAll(ins: seq<Value>): (outs: seq<Value>)
    requires FitAll(EF_INPUT, ins)
    ensures |outs| == |ins|
  {
    if ins == [] then [] else [DropExtras(ins[0])] + DropAll(ins[1..])
  }

  function ExtraSizes(ins: seq<Value>): nat
    requires FitAll(EF_INPUT, ins)
  {
    if ins == [] then 0 else ExtraSize(ins[0]) + ExtraSizes(ins[1..])
  }

  lemma {:induction false} DropExtrasFits(i: Value)
    requires Fits(EF_INPUT, i)
    ensures Fits(RAW_INPUT, DropExtras(i))
    ensures |Print(EF_INPUT, i)| == |Print(RAW_INPUT, DropExtras(i))| + ExtraSize(i)
    ensures ExtraSize(i) >= 9
  {
    var rest := Then(Fixed(4), Then(Fixed(8), Blob(Compact)));
    assert Fits(Then(Blob(Compact), rest), i.snd) && Fits(rest, i.snd.snd);
    assert Fits(Then(Fixed(8), Blob(Compact)), i.snd.snd.snd);
    assert Print(Then(Blob(Compact), rest), i.snd) == Print(Blob(Compact), i.snd.fst) + Print(rest, i.snd.snd);
    assert Fits(Then(Blob(Compact), Fixed(4)), DropExtras(i).snd);
  }

  lemma {:induction false} DropAllFits(ins: seq<Value>)
    requires FitAll(EF_INPUT, ins)
    ensures FitAll(RAW_INPUT, DropAll(ins))
    ensures |PrintMany(EF_INPUT, ins)| == |PrintMany(RAW_INPUT, DropAll(ins))| + ExtraSizes(ins)
  {
    if ins == [] {
    } else {
      DropExtrasFits(ins[0]);
      DropAllFits(ins[1..]);
      PrintManyCons(RAW_INPUT, DropExtras(ins[0]), DropAll(ins[1..]));
    }
  }

  /** The standard serialisation of a transaction: EF marker and per-input extras excluded. */
  function ToStandard(v: Value): Value
    requires Fits(TX, v)
  {
    if v.snd.OnNonzero? then v
    else
      assert Fits(IfZero(EF_BODY, RAW_BODY), v.snd) && Fits(EF_BODY, v.snd.v) && Fits(Body(EF_INPUT), v.snd.v.snd);
      Pair(v.fst, OnNonzero(Pair(List(DropAll(v.snd.v.snd.fst.items)), v.snd.v.snd.snd)))
  }

  /** Canonical transaction id (sender.go 373-381): SHA256d over the standard serialisation. */
  function TxId(sha: Sha, v: Value): Digest
    requires Fits(TX, v)
  {
    Sha256d(sha, Print(TX, ToStandard(v)))
  }

  lemma NonemptyCountNonzero(k: nat)
    requires k > 0
    ensures CompactSize(k)[0] != 0
  {
  }

  /** Dropping marker and extras of an EF transaction with at least one input leaves a well-formed
      raw transaction, shorter by six bytes and the extras. */
  lemma {:induction false} StandardFits(v: Value)
    requires Fits(TX, v) && v.snd.OnZero? && Fits(Body(EF_INPUT), v.snd.v.snd)
    requires v.snd.v.snd.fst.items != []
    ensures Fits(TX, ToStandard(v))
    ensures |Print(TX, v)| == |Print(TX, ToStandard(v))| + 6 + ExtraSizes(v.snd.v.snd.fst.items)
  {
    var body := v.snd.v.snd;
    var ins := body.fst.items;
    DropAllFits(ins);
    var std := Pair(List(DropAll(ins)), body.snd);
    assert Fits(Many(Compact, RAW_INPUT), std.fst);
    assert Fits(RAW_BODY, std);
    assert Print(RAW_BODY, std) == Print(Many(Compact, RAW_INPUT), std.fst) + Print(Then(Many(Compact, OUTPUT), Fixed(4)), body.snd);
    NonemptyCountNonzero(|ins|);
    assert Print(Body(EF_INPUT), body) == Print(Many(Compact, EF_INPUT), body.fst) + Print(Then(Many(Compact, OUTPUT), Fixed(4)), body.snd);
    assert Fits(IfZero(EF_BODY, RAW_BODY), OnNonzero(std));
    PrintTx(v);
    PrintTx(ToStandard(v));
  }

  /** The unlocking script of the first input. */
  function UnlockingScript(t: Value): seq<byte> {
    match t
    case Pair(_, OnNonzero(Pair(List(ins), _))) => ScriptOfInput(ins)
    case Pair(_, OnZero(Pair(_, Pair(List(ins), _)))) => ScriptOfInput(ins)
    case _ => []
  }

  function ScriptOfInput(ins: seq<Value>): seq<byte> {
    if ins == [] then []
    else
      match ins[0]
      case Pair(_, Pair(Raw(script), _)) => script
      case _ => []
  }

  /** The locking script of the first output. */
  function LockingScript(t: Value): seq<byte> {
    match t
    case Pair(_, OnNonzero(Pair(_, Pair(List(outs), _)))) => ScriptOfOutput(outs)
    case Pair(_, OnZero(Pair(_, Pair(_, Pair(List(outs), _))))) => ScriptOfOutput(outs)
    case _ => []
  }

  function ScriptOfOutput(outs: seq<Value>): seq<byte> {
    if outs == [] then []
    else
      match outs[0]
      case Pair(_, Raw(script)) => script
      case _ => []
  }

  /** The scripts survive. */
  lemma {:induction false} StandardScripts(v: Value)
    requires Fits(TX, v) && v.snd.OnZero? && Fits(Body(EF_INPUT), v.snd.v.snd)
    ensures UnlockingScript(ToStandard(v)) == UnlockingScript(v)
    ensures LockingScript(ToStandard(v)) == LockingScript(v)
  {
    hide Print;
    var ins := v.snd.v.snd.fst.items;
    assert Fits(Many(Compact, EF_INPUT), v.snd.v.snd.fst) && FitAll(EF_INPUT, ins);
    hide Fits;
    SameFirstScript(ins);
  }

  lemma {:induction false} SameFirstScript(ins: seq<Value>)
    requires FitAll(EF_INPUT, ins)
    ensures ScriptOfInput(DropAll(ins)) == ScriptOfInput(ins)
  {
    if ins != [] {
      var rest := Then(Fixed(4), Then(Fixed(8), Blob(Compact)));
      assert Fits(EF_INPUT, ins[0]) && Fits(Then(Blob(Compact), rest), ins[0].snd) && Fits(Blob(Compact), ins[0].snd.fst);
      hide Fits;
      assert DropAll(ins)[0] == DropExtras(ins[0]);
    }
  }

  /** A zero input count is taken for the EF marker; any other six bytes there are no transaction. */
  lemma {:induction false} MarkerOrBad(s: seq<byte>)
    requires |s| >= 10 && s[4] == 0 && s[4..10] != [0, 0, 0, 0, 0, 0xEF]
    ensures Parse(TX, s).Bad?
  {
    var rest := s[4..];
    assert rest[0] == 0 && rest[..6] == s[4..10];
    assert Parse(Literal(EF_MARKER), rest).Bad?;
    assert Parse(EF_BODY, rest).Bad?;
    assert Parse(IfZero(EF_BODY, RAW_BODY), rest).Bad?;
  }

  // ---------------------------------------------------------------- where a block keeps its fields

  lemma {:induction false} BlockParts(b: Block)
    requires Fits(BLOCK, b.Value())
    ensures |b.header| == 80 && |b.roots| < U64 && |b.bump| < U64
    ensures FitAll(Fixed(32), b.roots) && Fits(TX, b.coinbase)
  {
    var size := Then(Fixed(8), BLOCK_BODY);
    var v := b.Value();
    assert Fits(Then(Fixed(8), size), v.snd) && Fits(size, v.snd.snd) && Fits(BLOCK_BODY, v.snd.snd.snd);
    assert Fits(Many(Be8, Fixed(32)), v.snd.snd.snd.fst) && Fits(BLOCK_TAIL, v.snd.snd.snd.snd);
    assert Fits(Then(Fixed(8), Blob(Be8)), v.snd.snd.snd.snd.snd);
  }

  /** Coinbase, height, length-prefixed BUMP. */
  function TailLayout(b: Block): seq<byte> {
    Print(TX, b.coinbase) + (Be(b.height, 8) + (Be(|b.bump|, 8) + b.bump))
  }

  lemma {:induction false} TailPrint(b: Block)
    ensures Print(BLOCK_TAIL, Pair(b.coinbase, Pair(Raw(Be(b.height, 8)), Raw(b.bump))))
         == Print(TX, b.coinbase) + (Be(b.height, 8) + (Be(|b.bump|, 8) + b.bump))
  {
    var f, v := Then(Fixed(8), Blob(Be8)), Pair(Raw(Be(b.height, 8)), Raw(b.bump));
    assert Print(f, v) == Be(b.height, 8) + (Be(|b.bump|, 8) + b.bump);
  }

  lemma {:induction false} BlockPrint(b: Block)
    ensures Print(BLOCK, b.Value())
         == b.header + (Be(b.txCount, 8) + (Be(b.size, 8) + (Be(|b.roots|, 8) + PrintMany(Fixed(32), b.roots)
            + TailLayout(b))))
  {
    TailPrint(b);
    var size, body := Then(Fixed(8), BLOCK_BODY), b.Value().snd.snd.snd;
    assert Print(BLOCK_BODY, body) == Be(|b.roots|, 8) + PrintMany(Fixed(32), b.roots) + Print(BLOCK_TAIL, body.snd);
    assert Print(size, b.Value().snd.snd) == Be(b.size, 8) + Print(BLOCK_BODY, body);
  }

  lemma {:induction false} HashesSize(vs: seq<Value>)
    requires FitAll(Fixed(32), vs)
    ensures |PrintMany(Fixed(32), vs)| == 32 * |vs|
  {
    if vs != [] {
      HashesSize(vs[1..]);
      assert Fits(Fixed(32), vs[0]);
    }
  }

  lemma {:induction false} FrontSlices(h: seq<byte>, a: seq<byte>, b: seq<byte>, c: seq<byte>, r: seq<byte>,
                                       x: seq<byte>, m: nat)
    requires |h| == 80 && |a| == |b| == |c| == 8 && m == 104 + |r|
    ensures var s := h + (a + (b + (c + r + x)));
            && |s| == m + |x| && s[..80] == h && s[80..88] == a && s[88..96] == b && s[96..104] == c
            && s[104..m] == r && s[m..] == x
  {
    var s, t, u, w := h + (a + (b + (c + r + x))), a + (b + (c + r + x)), b + (c + r + x), c + r + x;
    assert s[80..] == t && t[8..] == u && u[8..] == w;
    assert s[80..88] == t[..8] && s[88..] == u && s[88..96] == u[..8] && s[96..] == w && s[96..104] == w[..8];
    assert w[8..8 + |r|] == r && w[8 + |r|..] == x;
    assert s[104..m] == w[8..8 + |r|] && s[m..] == w[8 + |r|..];
  }

  lemma {:induction false} TailSlices(s: seq<byte>, off: nat, c: seq<byte>, h: seq<byte>, l: seq<byte>, bump: seq<byte>)
    requires |h| == |l| == 8 && off <= |s| && s[off..] == c + (h + (l + bump))
    ensures var n := off + |c|;
            && |s| == n + 16 + |bump|
            && s[off..n] == c && s[n..n + 8] == h && s[n + 8..n + 16] == l && s[n + 16..] == bump
  {
    var n, t := off + |c|, s[off..];
    assert s[off..n] == t[..|c|] && s[n..] == t[|c|..] == h + (l + bump);
    assert s[n..][8..] == l + bump;
    assert s[n..n + 8] == s[n..][..8] && s[n + 8..n + 16] == s[n..][8..][..8] && s[n + 16..] == s[n..][8..][8..];
  }

  lemma {:induction false} BlockLine(b: Block)
    requires Fits(BLOCK, b.Value())
    ensures |b.header| == 80 && |PrintMany(Fixed(32), b.roots)| == 32 * |b.roots|
    ensures Print(BLOCK, b.Value())
         == b.header + (Be(b.txCount, 8) + (Be(b.size, 8) + (Be(|b.roots|, 8) + PrintMany(Fixed(32), b.roots) + TailLayout(b))))
  {
    BlockParts(b);
    BlockPrint(b);
    HashesSize(b.roots);
  }

  /** The fields of a printed block, by offset: those in front of the coinbase, which starts at m ... */
  lemma {:induction false} BlockFrontBytes(b: Block, m: nat)
    requires Fits(BLOCK, b.Value()) && m == 104 + 32 * |b.roots|
    ensures |b.roots| < U64
    ensures var s := Print(BLOCK, b.Value());
            && |s| >= m
            && s[..80] == b.header && s[80..88] == Be(b.txCount, 8) && s[88..96] == Be(b.size, 8)
            && s[96..104] == Be(|b.roots|, 8) && s[104..m] == PrintMany(Fixed(32), b.roots)
            && s[m..] == TailLayout(b)
  {
    BlockParts(b);
    hide *;
    BlockLine(b);
    FrontSlices(b.header, Be(b.txCount, 8), Be(b.size, 8), Be(|b.roots|, 8), PrintMany(Fixed(32), b.roots), TailLayout(b), m);
  }

  lemma {:induction false} BlockRest(b: Block, m: nat)
    requires Fits(BLOCK, b.Value()) && m == 104 + 32 * |b.roots|
    ensures |b.bump| < U64
    ensures var s := Print(BLOCK, b.Value());
            m <= |s| && s[m..] == Print(TX, b.coinbase) + (Be(b.height, 8) + (Be(|b.bump|, 8) + b.bump))
  {
    BlockParts(b);
    BlockFrontBytes(b, m);
  }

  /** ... and the coinbase, from m on, and what follows it, from n on. */
  lemma {:induction false} BlockTailBytes(b: Block, m: nat, n: nat)
    requires Fits(BLOCK, b.Value()) && m == 104 + 32 * |b.roots| && n == m + |Print(TX, b.coinbase)|
    ensures |b.bump| < U64
    ensures var s := Print(BLOCK, b.Value());
            && |s| == n + 16 + |b.bump| && s[m..n] == Print(TX, b.coinbase)
            && s[n..n + 8] == Be(b.height, 8) && s[n + 8..n + 16] == Be(|b.bump|, 8) && s[n + 16..] == b.bump
  {
    hide *;
    BlockRest(b, m);
    TailSlices(Print(BLOCK, b.Value()), m, Print(TX, b.coinbase), Be(b.height, 8), Be(|b.bump|, 8), b.bump);
  }

  // ---------------------------------------------------------------- what the standard serialisation keeps

  /** Input i of an EF transaction: outpoint, script and sequence in front of amount and spent script. */
  lemma {:induction false} InputFields(i: Value)
    requires Fits(EF_INPUT, i)
    ensures i.Pair? && i.fst.Raw? && i.snd.Pair? && i.snd.fst.Raw? && i.snd.snd.Pair? && i.snd.snd.fst.Raw?
    ensures |i.fst.bytes| == 36 && |i.snd.fst.bytes| < U64 && |i.snd.snd.fst.bytes| == 4
  {
    var rest := Then(Fixed(4), Then(Fixed(8), Blob(Compact)));
    assert Fits(Then(Blob(Compact), rest), i.snd) && Fits(rest, i.snd.snd);
  }

  lemma {:induction false} DropAllAt(ins: seq<Value>, i: nat)
    requires FitAll(EF_INPUT, ins) && i < |ins|
    ensures Fits(EF_INPUT, ins[i]) && DropAll(ins)[i] == DropExtras(ins[i])
  {
    hide Fits;
    hide DropExtras;
    if i > 0 {
      DropAllAt(ins[1..], i - 1);
    }
  }

  /** The standard serialisation has the inputs in order, each as its outpoint, its length-prefixed script and
      its sequence, and version, outputs and locktime as they were. */
  lemma {:induction false} StandardKeeps(v: Value, i: nat)
    requires Fits(TX, v) && v.snd.OnZero? && Fits(Body(EF_INPUT), v.snd.v.snd)
    requires i < |v.snd.v.snd.fst.items|
    ensures var std, e := ToStandard(v), v.snd.v.snd.fst.items[i];
            && std.fst == v.fst && std.snd.OnNonzero? && std.snd.v.Pair? && std.snd.v.snd == v.snd.v.snd.snd
            && std.snd.v.fst.List? && |std.snd.v.fst.items| == |v.snd.v.snd.fst.items|
            && Fits(EF_INPUT, e) && e.Pair? && e.fst.Raw? && e.snd.Pair? && e.snd.fst.Raw? && e.snd.snd.Pair? && e.snd.snd.fst.Raw?
            && Print(RAW_INPUT, std.snd.v.fst.items[i])
               == e.fst.bytes + (CompactSize(|e.snd.fst.bytes|) + e.snd.fst.bytes + e.snd.snd.fst.bytes)
  {
    var ins := v.snd.v.snd.fst.items;
    assert Fits(Many(Compact, EF_INPUT), v.snd.v.snd.fst) && FitAll(EF_INPUT, ins);
    DropAllAt(ins, i);
    InputFields(ins[i]);
    DropExtrasPrint(ins[i]);
  }

  lemma {:induction false} DropExtrasPrint(e: Value)
    requires Fits(EF_INPUT, e)
    requires e.Pair? && e.fst.Raw? && e.snd.Pair? && e.snd.fst.Raw? && e.snd.snd.Pair? && e.snd.snd.fst.Raw?
    ensures Print(RAW_INPUT, DropExtras(e))
         == e.fst.bytes + (CompactSize(|e.snd.fst.bytes|) + e.snd.fst.bytes + e.snd.snd.fst.bytes)
  {
    var f := Then(Blob(Compact), Fixed(4));
    assert Print(f, DropExtras(e).snd) == CompactSize(|e.snd.fst.bytes|) + e.snd.fst.bytes + e.snd.snd.fst.bytes;
  }

  /** The id of a raw transaction is the double hash of its bytes; one in Extended Format has the id of its
      standard serialisation, so the id does not depend on the extras. */
  lemma {:induction false} TxIdExactly(sha: Sha, v: Value)
    requires Fits(TX, v)
    ensures v.snd.OnNonzero? ==> TxId(sha, v) == sha(sha(Print(TX, v)))
    ensures v.snd.OnZero? && Fits(Body(EF_INPUT), v.snd.v.snd) && v.snd.v.snd.fst.items != [] ==>
              Fits(TX, ToStandard(v)) && TxId(sha, v) == TxId(sha, ToStandard(v))
  {
    hide Print;
    if v.snd.OnZero? && Fits(Body(EF_INPUT), v.snd.v.snd) && v.snd.v.snd.fst.items != [] {
      StandardFits(v);
      hide Fits;
      StandardIsRaw(v);
    }
  }

  lemma StandardIsRaw(v: Value)
    requires Fits(TX, v) && Fits(TX, ToStandard(v))
    ensures ToStandard(ToStandard(v)) == ToStandard(v)
  {
  }
}
