/** internal/tx: exact-size random transactions, written into a reused buffer. */
module TxBuilder {
  import opened Bytes
  import opened Buffers
  import opened WireFormat
  import opened ObjFmt

  const MIN_RAW_SIZE := 60
  const MIN_EF_SIZE := 75

  /** The largest slack splitSlack can place: a bulk script of 2^32 - 1 bytes and a shim of two. */
  const MAX_SLACK := 0xFFFFFFFF + 6

  datatype BuildError = BelowMinimum | NoCanonicalSplit
  datatype Result<+T> = Ok(value: T) | Err(error: BuildError)

  // ---------------------------------------------------------------- splitSlack

  /** Bytes a script of length n takes beyond the one length byte the format minimum counts. */
  function Cost(n: nat): nat {
    n + |CompactSize(n)| - 1
  }

  /** A shim and a bulk script that absorb the slack exactly, with a bulk length of at most five
      CompactSize bytes. */
  predicate Splits(slack: int, shim: nat, bulk: nat) {
    bulk <= 0xFFFFFFFF && Cost(shim) + Cost(bulk) == slack
  }

  method VarintSize(v: nat) returns (n: nat)
    ensures n == |CompactSize(v)|
  {
    if v < 0xFD {
      n := 1;
    } else if v <= 0xFFFF {
      n := 3;
    } else if v <= 0xFFFFFFFF {
      n := 5;
    } else {
      n := 9;
    }
  }

  /** Least shim that leaves the bulk script outside the two-byte gaps where CompactSize widens. */
  function Shim(slack: nat): nat {
    if slack == 253 || slack == 65538 || slack == 0xFFFFFFFF + 5 then 1
    else if slack == 254 || slack == 65539 || slack == 0xFFFFFFFF + 6 then 2
    else 0
  }

  function Bulk(slack: nat): (b: nat)
    requires slack <= MAX_SLACK
  {
    var rem := slack - Shim(slack);
    if rem <= 252 then rem else if rem <= 65537 then rem - 2 else rem - 4
  }

  method SplitSlack(slack: int) returns (r: Result<(nat, nat)>)
    ensures 0 <= slack <= MAX_SLACK ==> r == Ok((Shim(slack), Bulk(slack)))
    ensures slack < 0 || slack > MAX_SLACK ==> r == Err(NoCanonicalSplit)
  {
    for shim := 0 to 3
      invariant 0 <= slack <= MAX_SLACK ==> shim <= Shim(slack)
    {
      var rem := slack - shim;
      if rem < 0 {
        // a negative slack falls through every shim
      } else if rem <= 252 {
        return Ok((shim, rem));
      } else if 255 <= rem <= 65537 {
        return Ok((shim, rem - 2));
      } else if 65540 <= rem <= 0xFFFFFFFF + 4 {
        return Ok((shim, rem - 4));
      }
    }
    return Err(NoCanonicalSplit);
  }

  /** The split absorbs the slack exactly, with the widths putVarint really writes, and no smaller
      unlocking script admits a locking script with at most five length bytes. */
  lemma SplitExactAndLeast(slack: nat)
    requires slack <= MAX_SLACK
    ensures Shim(slack) <= 2 && Splits(slack, Shim(slack), Bulk(slack))
    ensures forall s: nat, b: nat :: Splits(slack, s, b) ==> Shim(slack) <= s
  {
  }

  /** Where splitSlack fails there is nothing to find: no unlocking script of at most two bytes goes with a
      locking script of at most five length bytes. */
  lemma NoSplit(slack: int, shim: nat, bulk: nat)
    requires (slack < 0 || slack > MAX_SLACK) && shim <= 2
    ensures !Splits(slack, shim, bulk)
  {
  }

  // ---------------------------------------------------------------- writing in place

  method PutVarint(dst: array<byte>, off: nat, v: nat) returns (end: nat)
    requires off + |CompactSize(v)| <= dst.Length
    modifies dst
    ensures end == off + |CompactSize(v)| && Wrote(old(dst[..]), dst[..], off, CompactSize(v))
  {
    if v < 0xFD {
      end := Put(dst, off, [v]);
    } else if v <= 0xFFFF {
      end := Put(dst, off, [0xFD] + Le(v, 2));
    } else if v <= 0xFFFFFFFF {
      end := Put(dst, off, [0xFE] + Le(v, 4));
    } else {
      end := Put(dst, off, [0xFF] + Le(v, 8));
    }
  }

  // ---------------------------------------------------------------- layouts

  function InputLayout(prevout: seq<byte>, unlock: seq<byte>, rest: seq<byte>): seq<byte> {
    prevout + (CompactSize(|unlock|) + unlock + rest)
  }

  function OutputLayout(value: seq<byte>, lock: seq<byte>): seq<byte> {
    [1] + (value + (CompactSize(|lock|) + lock + Le(0, 4)))
  }

  lemma {:induction false} OneItem(f: Format, v: Value)
    requires Fits(f, v)
    ensures Fits(Many(Compact, f), List([v]))
    ensures Print(Many(Compact, f), List([v])) == [1] + Print(f, v)
  {
    assert PrintMany(f, [v]) == Print(f, v) + PrintMany(f, []);
  }

  lemma {:induction false} OutputsPrint(value: seq<byte>, lock: seq<byte>)
    requires |value| == 8 && |lock| < U64
    ensures var f, v := Then(Many(Compact, OUTPUT), Fixed(4)), Pair(List([Output(value, lock)]), Raw(Le(0, 4)));
            Fits(f, v) && Print(f, v) == OutputLayout(value, lock)
  {
    var o := Output(value, lock);
    var b := CompactSize(|lock|) + lock;
    assert Fits(OUTPUT, o) && Print(OUTPUT, o) == value + b;
    OneItem(OUTPUT, o);
    Splice([1], value, b, Le(0, 4));
  }

  lemma {:induction false} Splice(a: seq<byte>, b: seq<byte>, c: seq<byte>, d: seq<byte>)
    ensures a + (b + c) + d == a + (b + (c + d))
  {
    assert a + (b + c) + d == a + ((b + c) + d);
    assert (b + c) + d == b + (c + d);
  }

  lemma {:induction false} RawOfBody(version: seq<byte>, body: Value)
    requires |version| == 4 && Fits(RAW_BODY, body) && Print(RAW_BODY, body) != [] && Print(RAW_BODY, body)[0] != 0
    ensures var t := Pair(Raw(version), OnNonzero(body));
            Fits(TX, t) && Print(TX, t) == version + Print(RAW_BODY, body)
  {
    assert Fits(IfZero(EF_BODY, RAW_BODY), OnNonzero(body));
  }

  lemma {:induction false} RawPrints(prevout: seq<byte>, unlock: seq<byte>, sequence: seq<byte>,
                                     value: seq<byte>, lock: seq<byte>)
    requires |prevout| == 36 && |unlock| < U64 && |sequence| == 4 && |value| == 8 && |lock| < U64
    ensures var t := RawTx(Le(2, 4), [Input(prevout, unlock, sequence)], [Output(value, lock)], Le(0, 4));
            && Fits(TX, t)
            && Print(TX, t) == Le(2, 4) + ([1] + InputLayout(prevout, unlock, sequence + OutputLayout(value, lock)))
  {
    RawBodyPrints(prevout, unlock, sequence, value, lock);
    hide Print;
    hide Fits;
    var body := Pair(List([Input(prevout, unlock, sequence)]), Pair(List([Output(value, lock)]), Raw(Le(0, 4))));
    RawOfBody(Le(2, 4), body);
  }

  lemma {:induction false} RawBodyPrints(prevout: seq<byte>, unlock: seq<byte>, sequence: seq<byte>,
                                         value: seq<byte>, lock: seq<byte>)
    requires |prevout| == 36 && |unlock| < U64 && |sequence| == 4 && |value| == 8 && |lock| < U64
    ensures var v := Pair(List([Input(prevout, unlock, sequence)]), Pair(List([Output(value, lock)]), Raw(Le(0, 4))));
            && Fits(RAW_BODY, v)
            && Print(RAW_BODY, v) == [1] + InputLayout(prevout, unlock, sequence + OutputLayout(value, lock))
  {
    var i, out := Input(prevout, unlock, sequence), OutputLayout(value, lock);
    var b := CompactSize(|unlock|) + unlock;
    assert Fits(RAW_INPUT, i) && Print(RAW_INPUT, i) == prevout + (b + sequence);
    OneItem(RAW_INPUT, i);
    OutputsPrint(value, lock);
    Splice([1], prevout, b + sequence, out);
    Assoc(b, sequence, out);
  }

  /** sequence, spent amount zero and an empty spent locking script. */
  function EFExtras(sequence: seq<byte>): seq<byte> {
    sequence + (Le(0, 8) + CompactSize(0))
  }

  lemma {:induction false} EFOfBody(version: seq<byte>, body: Value)
    requires |version| == 4 && Fits(Body(EF_INPUT), body)
    ensures var t := Pair(Raw(version), OnZero(Pair(Raw(EF_MARKER), body)));
            Fits(TX, t) && Print(TX, t) == version + (EF_MARKER + Print(Body(EF_INPUT), body))
  {
    assert Fits(IfZero(EF_BODY, RAW_BODY), OnZero(Pair(Raw(EF_MARKER), body)));
  }

  lemma {:induction false} EFPrints(prevout: seq<byte>, unlock: seq<byte>, sequence: seq<byte>, lock: seq<byte>)
    requires |prevout| == 36 && |unlock| < U64 && |sequence| == 4 && |lock| < U64
    ensures var t := EFTx(Le(2, 4), [EFInput(prevout, unlock, sequence, Le(0, 8), [])], [Output(Le(0, 8), lock)], Le(0, 4));
            && Fits(TX, t)
            && Print(TX, t) == Le(2, 4) + (EF_MARKER
                 + ([1] + InputLayout(prevout, unlock, EFExtras(sequence) + OutputLayout(Le(0, 8), lock))))
  {
    EFBodyPrints(prevout, unlock, sequence, lock);
    hide Print;
    hide Fits;
    var i, o := EFInput(prevout, unlock, sequence, Le(0, 8), []), Output(Le(0, 8), lock);
    EFOfBody(Le(2, 4), Pair(List([i]), Pair(List([o]), Raw(Le(0, 4)))));
  }

  lemma {:induction false} EFBodyPrints(prevout: seq<byte>, unlock: seq<byte>, sequence: seq<byte>, lock: seq<byte>)
    requires |prevout| == 36 && |unlock| < U64 && |sequence| == 4 && |lock| < U64
    ensures var i, o := EFInput(prevout, unlock, sequence, Le(0, 8), []), Output(Le(0, 8), lock);
            var v := Pair(List([i]), Pair(List([o]), Raw(Le(0, 4))));
            && Fits(Body(EF_INPUT), v)
            && Print(Body(EF_INPUT), v) == [1] + InputLayout(prevout, unlock, EFExtras(sequence) + OutputLayout(Le(0, 8), lock))
  {
    var i, out := EFInput(prevout, unlock, sequence, Le(0, 8), []), OutputLayout(Le(0, 8), lock);
    var b := CompactSize(|unlock|) + unlock;
    EFInputPrints(prevout, unlock, sequence);
    OneItem(EF_INPUT, i);
    OutputsPrint(Le(0, 8), lock);
    Splice([1], prevout, b + EFExtras(sequence), out);
    Assoc(b, EFExtras(sequence), out);
  }

  lemma {:induction false} EFInputPrints(prevout: seq<byte>, unlock: seq<byte>, sequence: seq<byte>)
    requires |prevout| == 36 && |unlock| < U64 && |sequence| == 4
    ensures var i := EFInput(prevout, unlock, sequence, Le(0, 8), []);
            && Fits(EF_INPUT, i)
            && Print(EF_INPUT, i) == prevout + (CompactSize(|unlock|) + unlock + EFExtras(sequence))
  {
    var tail := Then(Fixed(4), Then(Fixed(8), Blob(Compact)));
    var t := Pair(Raw(sequence), Pair(Raw(Le(0, 8)), Raw([])));
    assert Print(Blob(Compact), Raw([])) == CompactSize(0);
    assert Fits(tail, t) && Print(tail, t) == EFExtras(sequence);
    assert Fits(Then(Blob(Compact), tail), Pair(Raw(unlock), t));
  }

  // ---------------------------------------------------------------- the builders

  /** One random bytes field, length-prefixed: PutVarint, then fillRand when there is anything to fill. */
  method PutScript(r: Rng, dst: array<byte>, off: nat, n: nat) returns (end: nat)
    requires off + |CompactSize(n)| + n <= dst.Length
    modifies r, dst
    ensures end == off + |CompactSize(n)| + n && r.pos == old(r.pos) + WordsFor(n)
    ensures Wrote(old(dst[..]), dst[..], off, CompactSize(n) + RandBytes(r.words, old(r.pos), n))
  {
    hide Wrote;
    end := PutVarint(dst, off, n);
    if n > 0 {
      ghost var mid := dst[..];
      end := FillRand(r, dst, end, n);
      WroteThen(old(dst[..]), mid, dst[..], off, CompactSize(n), RandBytes(r.words, old(r.pos), n));
    } else {
      assert CompactSize(n) + RandBytes(r.words, old(r.pos), n) == CompactSize(n);
    }
  }

  lemma InputSize(prevout: seq<byte>, unlock: seq<byte>, rest: seq<byte>)
    requires |unlock| <= 2
    ensures |[1] + InputLayout(prevout, unlock, rest)| == 2 + |prevout| + |unlock| + |rest|
  {
  }

  /** vin_count 1, prev_hash and prev_index. */
  method PutOutpoint(r: Rng, dst: array<byte>, off: nat) returns (end: nat)
    requires off + 37 <= dst.Length
    modifies r, dst
    ensures end == off + 37 && r.pos == old(r.pos) + 5
    ensures Wrote(old(dst[..]), dst[..], off, [1] + RandBytes(r.words, old(r.pos), 36))
  {
    hide Wrote;
    hide RandBytes;
    ghost var p, s0 := r.pos, dst[..];
    end := Put(dst, off, [1]);
    ghost var s1 := dst[..];
    end := FillRand(r, dst, end, 36);
    WroteThen(s0, s1, dst[..], off, [1], RandBytes(r.words, p, 36));
  }

  /** The unlocking script and the sequence. */
  method PutUnlock(r: Rng, dst: array<byte>, off: nat, shim: nat) returns (end: nat)
    requires shim <= 2 && off + 5 + shim <= dst.Length
    modifies r, dst
    ensures end == off + 5 + shim && r.pos == old(r.pos) + WordsFor(shim) + 1
    ensures Wrote(old(dst[..]), dst[..], off,
                  CompactSize(shim) + RandBytes(r.words, old(r.pos), shim) + RandBytes(r.words, old(r.pos) + WordsFor(shim), 4))
  {
    hide Wrote;
    hide RandBytes;
    hide WordsFor;
    ShimSize(shim);
    hide CompactSize;
    FiveWords();
    ghost var p, s0 := r.pos, dst[..];
    end := PutScript(r, dst, off, shim);
    ghost var script, s1 := CompactSize(shim) + RandBytes(r.words, p, shim), dst[..];
    end := FillRand(r, dst, end, 4);
    WroteThen(s0, s1, dst[..], off, script, RandBytes(r.words, p + WordsFor(shim), 4));
  }

  /** The outpoint, unlocking script, sequence. */
  method PutInput(r: Rng, dst: array<byte>, off: nat, shim: nat) returns (end: nat)
    requires shim <= 2 && off + 42 + shim <= dst.Length
    modifies r, dst
    ensures end == off + 42 + shim && r.pos == old(r.pos) + 6 + WordsFor(shim)
    ensures var p := old(r.pos);
            Wrote(old(dst[..]), dst[..], off,
                  [1] + InputLayout(RandBytes(r.words, p, 36), RandBytes(r.words, p + 5, shim),
                                    RandBytes(r.words, p + 5 + WordsFor(shim), 4)))
  {
    hide Wrote;
    hide RandBytes;
    hide InputLayout;
    hide WordsFor;
    hide CompactSize;
    ghost var p, s0 := r.pos, dst[..];
    end := PutOutpoint(r, dst, off);
    ghost var prevout, s1 := RandBytes(r.words, p, 36), dst[..];
    ghost var unlock, sequence := RandBytes(r.words, r.pos, shim), RandBytes(r.words, r.pos + WordsFor(shim), 4);
    end := PutUnlock(r, dst, end, shim);
    WroteThen(s0, s1, dst[..], off, [1] + prevout, CompactSize(shim) + unlock + sequence);
    InputPieces(prevout, unlock, sequence);
  }

  lemma FiveWords()
    ensures WordsFor(36) == 5 && WordsFor(4) == 1
  {
  }

  lemma ShimSize(shim: nat)
    requires shim <= 2
    ensures |CompactSize(shim)| == 1
  {
  }

  lemma {:induction false} InputPieces(prevout: seq<byte>, unlock: seq<byte>, sequence: seq<byte>)
    ensures [1] + prevout + (CompactSize(|unlock|) + unlock + sequence) == [1] + InputLayout(prevout, unlock, sequence)
  {
    Assoc([1], prevout, CompactSize(|unlock|) + unlock + sequence);
  }

  /** What goes into the value field: random bytes, or zero in Extended Format. */
  function ValueField(words: nat -> u64, pos: nat, randomValue: bool): (v: seq<byte>)
    ensures |v| == 8
  {
    if randomValue then RandBytes(words, pos, 8) else Le(0, 8)
  }

  method PutValue(r: Rng, dst: array<byte>, off: nat, randomValue: bool) returns (end: nat)
    requires off + 8 <= dst.Length
    modifies r, dst
    ensures end == off + 8 && r.pos == old(r.pos) + (if randomValue then 1 else 0)
    ensures Wrote(old(dst[..]), dst[..], off, ValueField(r.words, old(r.pos), randomValue))
  {
    hide Wrote;
    hide RandBytes;
    if randomValue {
      end := FillRand(r, dst, off, 8);
    } else {
      end := Put(dst, off, Le(0, 8));
    }
  }

  /** Locking script, locktime 0. */
  method PutLock(r: Rng, dst: array<byte>, off: nat, bulk: nat) returns (end: nat)
    requires off + |CompactSize(bulk)| + bulk + 4 <= dst.Length
    modifies r, dst
    ensures end == off + |CompactSize(bulk)| + bulk + 4 && r.pos == old(r.pos) + WordsFor(bulk)
    ensures Wrote(old(dst[..]), dst[..], off, CompactSize(bulk) + RandBytes(r.words, old(r.pos), bulk) + Le(0, 4))
  {
    hide Wrote;
    hide RandBytes;
    hide Le;
    hide CompactSize;
    hide WordsFor;
    ghost var s0, script := dst[..], CompactSize(bulk) + RandBytes(r.words, r.pos, bulk);
    end := PutScript(r, dst, off, bulk);
    ghost var s1 := dst[..];
    end := Put(dst, end, Le(0, 4));
    WroteThen(s0, s1, dst[..], off, script, Le(0, 4));
  }

  /** vout_count 1, value, locking script, locktime 0. */
  method PutOutput(r: Rng, dst: array<byte>, off: nat, randomValue: bool, bulk: nat) returns (end: nat)
    requires off + 13 + |CompactSize(bulk)| + bulk <= dst.Length
    modifies r, dst
    ensures end == off + 13 + |CompactSize(bulk)| + bulk
    ensures var p := old(r.pos) + (if randomValue then 1 else 0);
            && r.pos == p + WordsFor(bulk)
            && Wrote(old(dst[..]), dst[..], off,
                     OutputLayout(ValueField(r.words, old(r.pos), randomValue), RandBytes(r.words, p, bulk)))
  {
    hide Wrote;
    hide RandBytes;
    hide Le;
    hide CompactSize;
    hide OutputLayout;
    hide ValueField;
    hide WordsFor;
    ghost var value, s0 := ValueField(r.words, r.pos, randomValue), dst[..];
    end := Put(dst, off, [1]);
    ghost var s1 := dst[..];
    end := PutValue(r, dst, end, randomValue);
    ghost var s2, lock := dst[..], RandBytes(r.words, r.pos, bulk);
    WroteThen(s0, s1, s2, off, [1], value);
    end := PutLock(r, dst, end, bulk);
    WroteThen(s0, s2, dst[..], off, [1] + value, CompactSize(bulk) + lock + Le(0, 4));
    OutputPieces(value, lock);
  }

  lemma {:induction false} OutputPieces(value: seq<byte>, lock: seq<byte>)
    ensures [1] + value + (CompactSize(|lock|) + lock + Le(0, 4)) == OutputLayout(value, lock)
  {
    Assoc([1], value, CompactSize(|lock|) + lock + Le(0, 4));
  }

  lemma {:induction false} InputThen(head: seq<byte>, prevout: seq<byte>, unlock: seq<byte>, rest: seq<byte>,
                                     more: seq<byte>)
    ensures head + ([1] + InputLayout(prevout, unlock, rest)) + more == head + ([1] + InputLayout(prevout, unlock, rest + more))
  {
    Assoc(head, [1] + InputLayout(prevout, unlock, rest), more);
    InputMore(prevout, unlock, rest, more);
  }

  lemma {:induction false} InputMore(prevout: seq<byte>, unlock: seq<byte>, rest: seq<byte>, more: seq<byte>)
    ensures [1] + InputLayout(prevout, unlock, rest) + more == [1] + InputLayout(prevout, unlock, rest + more)
  {
    var b := CompactSize(|unlock|) + unlock;
    Assoc([1], prevout + (b + rest), more);
    Assoc(prevout, b + rest, more);
    Assoc(b, rest, more);
  }

  /** The raw transaction whose random fields are drawn from word p on. */
  function RawFrom(words: nat -> u64, p: nat, shim: nat, bulk: nat): Value {
    var q := p + 6 + WordsFor(shim);
    RawTx(Le(2, 4), [Input(RandBytes(words, p, 36), RandBytes(words, p + 5, shim), RandBytes(words, q - 1, 4))],
          [Output(RandBytes(words, q, 8), RandBytes(words, q + 1, bulk))], Le(0, 4))
  }

  lemma {:induction false} RawFromPrints(words: nat -> u64, p: nat, shim: nat, bulk: nat)
    requires shim < U64 && bulk < U64
    ensures var q := p + 6 + WordsFor(shim);
            var input := InputLayout(RandBytes(words, p, 36), RandBytes(words, p + 5, shim), RandBytes(words, q - 1, 4));
            && Fits(TX, RawFrom(words, p, shim, bulk))
            && Print(TX, RawFrom(words, p, shim, bulk))
               == Le(2, 4) + ([1] + input) + OutputLayout(RandBytes(words, q, 8), RandBytes(words, q + 1, bulk))
  {
    hide Print;
    hide Fits;
    hide RandBytes;
    var q := p + 6 + WordsFor(shim);
    var prevout, unlock, sequence := RandBytes(words, p, 36), RandBytes(words, p + 5, shim), RandBytes(words, q - 1, 4);
    var value, lock := RandBytes(words, q, 8), RandBytes(words, q + 1, bulk);
    InputThen(Le(2, 4), prevout, unlock, sequence, OutputLayout(value, lock));
    RawPrints(prevout, unlock, sequence, value, lock);
  }

  /** Lines 125 to 148 of tx.go: a whole raw transaction at the front of dst. */
  method PutRaw(r: Rng, dst: array<byte>, shim: nat, bulk: nat) returns (off: nat)
    requires shim <= 2 && bulk < U64 && MIN_RAW_SIZE + Cost(shim) + Cost(bulk) <= dst.Length
    modifies r, dst
    ensures off == MIN_RAW_SIZE + Cost(shim) + Cost(bulk) && r.pos == old(r.pos) + 7 + WordsFor(shim) + WordsFor(bulk)
    ensures Wrote(old(dst[..]), dst[..], 0, Print(TX, RawFrom(r.words, old(r.pos), shim, bulk)))
  {
    hide Wrote;
    hide Print;
    hide RawFrom;
    hide RandBytes;
    hide Le;
    hide InputLayout;
    hide OutputLayout;
    ghost var p, s0 := r.pos, dst[..];
    ghost var q := p + 6 + WordsFor(shim);
    RawFromPrints(r.words, p, shim, bulk);
    off := Put(dst, 0, Le(2, 4));
    ghost var s1 := dst[..];
    off := PutInput(r, dst, off, shim);
    ghost var input := InputLayout(RandBytes(r.words, p, 36), RandBytes(r.words, p + 5, shim), RandBytes(r.words, q - 1, 4));
    ghost var s2 := dst[..];
    InputSize(RandBytes(r.words, p, 36), RandBytes(r.words, p + 5, shim), RandBytes(r.words, q - 1, 4));
    WroteThen(s0, s1, s2, 0, Le(2, 4), [1] + input);
    off := PutOutput(r, dst, off, true, bulk);
    WroteThen(s0, s2, dst[..], 0, Le(2, 4) + ([1] + input),
              OutputLayout(RandBytes(r.words, q, 8), RandBytes(r.words, q + 1, bulk)));
  }

  /** The Extended Format transaction whose random fields are drawn from word p on. */
  function EFFrom(words: nat -> u64, p: nat, shim: nat, bulk: nat): Value {
    var q := p + 6 + WordsFor(shim);
    EFTx(Le(2, 4),
         [EFInput(RandBytes(words, p, 36), RandBytes(words, p + 5, shim), RandBytes(words, q - 1, 4), Le(0, 8), [])],
         [Output(Le(0, 8), RandBytes(words, q, bulk))], Le(0, 4))
  }

  lemma {:induction false} EFFromPrints(words: nat -> u64, p: nat, shim: nat, bulk: nat)
    requires shim < U64 && bulk < U64
    ensures var q := p + 6 + WordsFor(shim);
            var input := InputLayout(RandBytes(words, p, 36), RandBytes(words, p + 5, shim), EFExtras(RandBytes(words, q - 1, 4)));
            && Fits(TX, EFFrom(words, p, shim, bulk))
            && Print(TX, EFFrom(words, p, shim, bulk))
               == Le(2, 4) + EF_MARKER + ([1] + input) + OutputLayout(Le(0, 8), RandBytes(words, q, bulk))
  {
    hide Print;
    hide Fits;
    hide RandBytes;
    hide Le;
    var q := p + 6 + WordsFor(shim);
    var prevout, unlock, sequence := RandBytes(words, p, 36), RandBytes(words, p + 5, shim), RandBytes(words, q - 1, 4);
    var out := OutputLayout(Le(0, 8), RandBytes(words, q, bulk));
    InputThen(Le(2, 4) + EF_MARKER, prevout, unlock, EFExtras(sequence), out);
    Assoc(Le(2, 4), EF_MARKER, [1] + InputLayout(prevout, unlock, EFExtras(sequence) + out));
    EFPrints(prevout, unlock, sequence, RandBytes(words, q, bulk));
  }

  /** PutInput, then the amount and locking script an Extended Format input carries. */
  method PutEFInput(r: Rng, dst: array<byte>, off: nat, shim: nat) returns (end: nat)
    requires shim <= 2 && off + 51 + shim <= dst.Length
    modifies r, dst
    ensures end == off + 51 + shim && r.pos == old(r.pos) + 6 + WordsFor(shim)
    ensures var p := old(r.pos);
            Wrote(old(dst[..]), dst[..], off,
                  [1] + InputLayout(RandBytes(r.words, p, 36), RandBytes(r.words, p + 5, shim),
                                    EFExtras(RandBytes(r.words, p + 5 + WordsFor(shim), 4))))
  {
    hide Wrote;
    hide RandBytes;
    hide Le;
    ghost var p, s0 := r.pos, dst[..];
    end := PutInput(r, dst, off, shim);
    ghost var prevout, unlock := RandBytes(r.words, p, 36), RandBytes(r.words, p + 5, shim);
    ghost var sequence, s1 := RandBytes(r.words, p + 5 + WordsFor(shim), 4), dst[..];
    end := PutSpent(dst, end);
    WroteThen(s0, s1, dst[..], off, [1] + InputLayout(prevout, unlock, sequence), Le(0, 8) + CompactSize(0));
    InputMore(prevout, unlock, sequence, Le(0, 8) + CompactSize(0));
  }

  /** version 2 and the EF marker. */
  method PutEFHead(dst: array<byte>) returns (end: nat)
    requires 10 <= dst.Length
    modifies dst
    ensures end == 10 && Wrote(old(dst[..]), dst[..], 0, Le(2, 4) + EF_MARKER)
  {
    ghost var s0 := dst[..];
    end := Put(dst, 0, Le(2, 4));
    ghost var s1 := dst[..];
    end := Put(dst, end, EF_MARKER);
    WroteThen(s0, s1, dst[..], 0, Le(2, 4), EF_MARKER);
  }

  /** Lines 52 to 79 of ef.go: a whole Extended Format transaction at the front of dst. */
  method PutEF(r: Rng, dst: array<byte>, shim: nat, bulk: nat) returns (off: nat)
    requires shim <= 2 && bulk < U64 && MIN_EF_SIZE + Cost(shim) + Cost(bulk) <= dst.Length
    modifies r, dst
    ensures off == MIN_EF_SIZE + Cost(shim) + Cost(bulk) && r.pos == old(r.pos) + 6 + WordsFor(shim) + WordsFor(bulk)
    ensures Wrote(old(dst[..]), dst[..], 0, Print(TX, EFFrom(r.words, old(r.pos), shim, bulk)))
  {
    hide Wrote;
    hide Print;
    hide EFFrom;
    hide RandBytes;
    hide Le;
    hide InputLayout;
    hide OutputLayout;
    ghost var p, s0 := r.pos, dst[..];
    ghost var q := p + 6 + WordsFor(shim);
    EFFromPrints(r.words, p, shim, bulk);
    off := PutEFHead(dst);
    ghost var s1 := dst[..];
    off := PutEFInput(r, dst, off, shim);
    ghost var input := InputLayout(RandBytes(r.words, p, 36), RandBytes(r.words, p + 5, shim), EFExtras(RandBytes(r.words, q - 1, 4)));
    ghost var s2 := dst[..];
    InputSize(RandBytes(r.words, p, 36), RandBytes(r.words, p + 5, shim), EFExtras(RandBytes(r.words, q - 1, 4)));
    WroteThen(s0, s1, s2, 0, Le(2, 4) + EF_MARKER, [1] + input);
    off := PutOutput(r, dst, off, false, bulk);
    WroteThen(s0, s2, dst[..], 0, Le(2, 4) + EF_MARKER + ([1] + input), OutputLayout(Le(0, 8), RandBytes(r.words, q, bulk)));
  }

  /** spent_satoshis 0 and an empty previous locking script. */
  method PutSpent(dst: array<byte>, off: nat) returns (end: nat)
    requires off + 9 <= dst.Length
    modifies dst
    ensures end == off + 9 && Wrote(old(dst[..]), dst[..], off, Le(0, 8) + CompactSize(0))
  {
    hide Wrote;
    ghost var s0 := dst[..];
    end := Put(dst, off, Le(0, 8));
    ghost var s1 := dst[..];
    end := PutVarint(dst, end, 0);
    WroteThen(s0, s1, dst[..], off, Le(0, 8), CompactSize(0));
  }

  // ---------------------------------------------------------------- what a size and a stream position determine

  /** The raw transaction of a given size that the stream yields at word pos. */
  function RawAt(words: nat -> u64, pos: nat, size: nat): Value
    requires MIN_RAW_SIZE <= size <= MIN_RAW_SIZE + MAX_SLACK
  {
    RawFrom(words, pos, Shim(size - MIN_RAW_SIZE), Bulk(size - MIN_RAW_SIZE))
  }

  function RawWords(size: nat): nat
    requires MIN_RAW_SIZE <= size <= MIN_RAW_SIZE + MAX_SLACK
  {
    7 + WordsFor(Shim(size - MIN_RAW_SIZE)) + WordsFor(Bulk(size - MIN_RAW_SIZE))
  }

  function EFAt(words: nat -> u64, pos: nat, size: nat): Value
    requires MIN_EF_SIZE <= size <= MIN_EF_SIZE + MAX_SLACK
  {
    EFFrom(words, pos, Shim(size - MIN_EF_SIZE), Bulk(size - MIN_EF_SIZE))
  }

  function EFWords(size: nat): nat
    requires MIN_EF_SIZE <= size <= MIN_EF_SIZE + MAX_SLACK
  {
    6 + WordsFor(Shim(size - MIN_EF_SIZE)) + WordsFor(Bulk(size - MIN_EF_SIZE))
  }

  lemma {:induction false} SplitFacts(slack: int)
    ensures 0 <= slack <= MAX_SLACK ==> Shim(slack) <= 2 && Bulk(slack) < U64 && Cost(Shim(slack)) + Cost(Bulk(slack)) == slack
  {
    if 0 <= slack <= MAX_SLACK {
      SplitExactAndLeast(slack);
    }
  }

  lemma {:induction false} RawAtSize(words: nat -> u64, pos: nat, size: nat)
    requires MIN_RAW_SIZE <= size <= MIN_RAW_SIZE + MAX_SLACK
    ensures Fits(TX, RawAt(words, pos, size)) && |Print(TX, RawAt(words, pos, size))| == size
    ensures RawAt(words, pos, size) == RawFrom(words, pos, Shim(size - MIN_RAW_SIZE), Bulk(size - MIN_RAW_SIZE))
  {
    SplitExactAndLeast(size - MIN_RAW_SIZE);
    RawFromPrints(words, pos, Shim(size - MIN_RAW_SIZE), Bulk(size - MIN_RAW_SIZE));
  }

  lemma {:induction false} EFAtSize(words: nat -> u64, pos: nat, size: nat)
    requires MIN_EF_SIZE <= size <= MIN_EF_SIZE + MAX_SLACK
    ensures Fits(TX, EFAt(words, pos, size)) && |Print(TX, EFAt(words, pos, size))| == size
    ensures EFAt(words, pos, size) == EFFrom(words, pos, Shim(size - MIN_EF_SIZE), Bulk(size - MIN_EF_SIZE))
  {
    SplitExactAndLeast(size - MIN_EF_SIZE);
    EFFromPrints(words, pos, Shim(size - MIN_EF_SIZE), Bulk(size - MIN_EF_SIZE));
  }

  // ---------------------------------------------------------------- the built bytes, by offset

  /** a followed by b, then c from off on. */
  lemma {:induction false} Behind(s: seq<byte>, off: nat, a: seq<byte>, rest: seq<byte>)
    requires off <= |s| && s[off..] == a + rest
    ensures off + |a| <= |s| && s[off..off + |a|] == a && s[off + |a|..] == rest
  {
    assert s[off..off + |a|] == s[off..][..|a|] && s[off + |a|..] == s[off..][|a|..];
  }

  lemma {:induction false} SmallNumbers()
    ensures Le(2, 4) == [2, 0, 0, 0] && Le(0, 4) == [0, 0, 0, 0] && Le(0, 8) == [0, 0, 0, 0, 0, 0, 0, 0]
  {
    ZeroAt(0, 3);
    ZeroAt(0, 4);
    ZeroAt(0, 8);
    assert Le(2, 4) == [2] + Le(0, 3);
    assert Le(0, 4) == [0, 0, 0, 0];
    assert Le(0, 8) == [0, 0, 0, 0, 0, 0, 0, 0];
  }

  /** Input and output as they stand in s from the input count on. */
  predicate InputAt(s: seq<byte>, off: nat, prevout: seq<byte>, unlock: seq<byte>, sequence: seq<byte>) {
    && off + 42 + |unlock| <= |s|
    && s[off] == 1 && s[off + 1..off + 37] == prevout && s[off + 37] == |unlock|
    && s[off + 38..off + 38 + |unlock|] == unlock && s[off + 38 + |unlock|..off + 42 + |unlock|] == sequence
  }

  predicate OutputAt(s: seq<byte>, off: nat, value: seq<byte>, lock: seq<byte>) {
    var c := CompactSize(|lock|);
    && off + 13 + |c| + |lock| == |s|
    && s[off] == 1 && s[off + 1..off + 9] == value && s[off + 9..off + 9 + |c|] == c
    && s[off + 9 + |c|..off + 9 + |c| + |lock|] == lock && s[off + 9 + |c| + |lock|..] == [0, 0, 0, 0]
  }

  lemma {:induction false} InputPlaced(s: seq<byte>, off: nat, prevout: seq<byte>, unlock: seq<byte>,
                                       sequence: seq<byte>, rest: seq<byte>)
    requires |prevout| == 36 && |unlock| <= 2 && |sequence| == 4
    requires off <= |s| && s[off..] == [1] + (prevout + ([|unlock|] + (unlock + (sequence + rest))))
    ensures InputAt(s, off, prevout, unlock, sequence) && s[off + 42 + |unlock|..] == rest
  {
    Behind(s, off, [1], prevout + ([|unlock|] + (unlock + (sequence + rest))));
    Behind(s, off + 1, prevout, [|unlock|] + (unlock + (sequence + rest)));
    Behind(s, off + 37, [|unlock|], unlock + (sequence + rest));
    Behind(s, off + 38, unlock, sequence + rest);
    Behind(s, off + 38 + |unlock|, sequence, rest);
    assert s[off] == s[off..off + 1][0] && s[off + 37] == s[off + 37..off + 38][0];
  }

  /** Five fields one after the other, the first a single byte. */
  lemma {:induction false} FivePlaced(s: seq<byte>, off: nat, one: byte, value: seq<byte>, c: seq<byte>,
                                      lock: seq<byte>, last: seq<byte>)
    requires |value| == 8 && |last| == 4 && off <= |s| && s[off..] == [one] + (value + (c + (lock + last)))
    ensures var m := off + 9 + |c|;
            && |s| == m + |lock| + 4 && s[off] == one && s[off + 1..off + 9] == value
            && s[off + 9..m] == c && s[m..m + |lock|] == lock && s[m + |lock|..] == last
  {
    Behind(s, off, [one], value + (c + (lock + last)));
    Behind(s, off + 1, value, c + (lock + last));
    Behind(s, off + 9, c, lock + last);
    Behind(s, off + 9 + |c|, lock, last);
    assert s[off] == s[off..off + 1][0];
  }

  lemma {:induction false} OutputPlaced(s: seq<byte>, off: nat, value: seq<byte>, lock: seq<byte>)
    requires |value| == 8 && off <= |s| && s[off..] == OutputLayout(value, lock)
    ensures OutputAt(s, off, value, lock)
  {
    SmallNumbers();
    hide Le;
    hide CompactSize;
    Assoc(CompactSize(|lock|), lock, Le(0, 4));
    FivePlaced(s, off, 1, value, CompactSize(|lock|), lock, Le(0, 4));
  }

  lemma {:induction false} Unnest(head: seq<byte>, prevout: seq<byte>, unlock: seq<byte>, rest: seq<byte>,
                                  out: seq<byte>)
    requires |unlock| <= 2
    ensures var s := head + ([1] + InputLayout(prevout, unlock, rest)) + out;
            s[|head|..] == [1] + (prevout + ([|unlock|] + (unlock + (rest + out)))) && s[..|head|] == head
  {
    var input := [1] + InputLayout(prevout, unlock, rest);
    InputMore(prevout, unlock, rest, out);
    assert (head + input + out)[|head|..] == input + out;
    assert CompactSize(|unlock|) == [|unlock|];
    Assoc([|unlock|], unlock, rest + out);
  }

  /** head, an input and an output, put together and found again. */
  lemma {:induction false} RawPlaced(head: seq<byte>, prevout: seq<byte>, unlock: seq<byte>, sequence: seq<byte>,
                                     value: seq<byte>, lock: seq<byte>)
    requires |prevout| == 36 && |unlock| <= 2 && |sequence| == 4 && |value| == 8
    ensures var s := head + ([1] + InputLayout(prevout, unlock, sequence)) + OutputLayout(value, lock);
            && s[..|head|] == head && InputAt(s, |head|, prevout, unlock, sequence)
            && OutputAt(s, |head| + 42 + |unlock|, value, lock)
  {
    hide InputAt;
    hide OutputAt;
    hide OutputLayout;
    var s := head + ([1] + InputLayout(prevout, unlock, sequence)) + OutputLayout(value, lock);
    Unnest(head, prevout, unlock, sequence, OutputLayout(value, lock));
    hide InputLayout;
    InputPlaced(s, |head|, prevout, unlock, sequence, OutputLayout(value, lock));
    OutputPlaced(s, |head| + 42 + |unlock|, value, lock);
  }

  /** ... and with more bytes behind the sequence. */
  lemma {:induction false} EFPlaced(head: seq<byte>, prevout: seq<byte>, unlock: seq<byte>,
                                    sequence: seq<byte>, more: seq<byte>,
                                    value: seq<byte>, lock: seq<byte>)
    requires |prevout| == 36 && |unlock| <= 2 && |sequence| == 4 && |value| == 8
    ensures var s, n := head + ([1] + InputLayout(prevout, unlock, sequence + more)) + OutputLayout(value, lock), |head| + 42 + |unlock|;
            && n + |more| <= |s|
            && s[..|head|] == head && InputAt(s, |head|, prevout, unlock, sequence)
            && s[n..n + |more|] == more && OutputAt(s, n + |more|, value, lock)
  {
    hide InputAt;
    hide OutputAt;
    hide OutputLayout;
    var out := OutputLayout(value, lock);
    var s, n := head + ([1] + InputLayout(prevout, unlock, sequence + more)) + out, |head| + 42 + |unlock|;
    Unnest(head, prevout, unlock, sequence + more, out);
    hide InputLayout;
    Assoc(sequence, more, out);
    InputPlaced(s, |head|, prevout, unlock, sequence, more + out);
    Behind(s, n, more, out);
    OutputPlaced(s, n + |more|, value, lock);
  }

  /** A raw transaction from word p on: version 2, one input and one output whose fields are the next words of the
      stream, and locktime 0. */
  lemma {:induction false} RawBytes(words: nat -> u64, p: nat, shim: nat, bulk: nat, q: nat)
    requires shim <= 2 && bulk < U64 && q == p + 5 + WordsFor(shim)
    ensures var s := Print(TX, RawFrom(words, p, shim, bulk));
            && |s| >= 4 && s[..4] == [2, 0, 0, 0]
            && InputAt(s, 4, RandBytes(words, p, 36), RandBytes(words, p + 5, shim), RandBytes(words, q, 4))
            && OutputAt(s, 46 + shim, RandBytes(words, q + 1, 8), RandBytes(words, q + 2, bulk))
  {
    RawFromPrints(words, p, shim, bulk);
    SmallNumbers();
    hide Print;
    hide RawFrom;
    hide RandBytes;
    hide Le;
    hide InputAt;
    hide OutputAt;
    hide InputLayout;
    hide OutputLayout;
    RawPlaced(Le(2, 4), RandBytes(words, p, 36), RandBytes(words, p + 5, shim), RandBytes(words, q, 4),
              RandBytes(words, q + 1, 8), RandBytes(words, q + 2, bulk));
  }

  /** Version 2, the marker, the input with a spent amount of zero and an empty spent script behind its sequence,
      an output of value zero, and locktime 0. */
  predicate EFLaidOut(s: seq<byte>, prevout: seq<byte>, unlock: seq<byte>, sequence: seq<byte>, lock: seq<byte>) {
    && |s| >= 61 + |unlock| && s[..10] == [2, 0, 0, 0, 0, 0, 0, 0, 0, 0xEF]
    && InputAt(s, 10, prevout, unlock, sequence)
    && s[52 + |unlock|..61 + |unlock|] == [0, 0, 0, 0, 0, 0, 0, 0, 0]
    && OutputAt(s, 61 + |unlock|, [0, 0, 0, 0, 0, 0, 0, 0], lock)
  }

  function EFWire(prevout: seq<byte>, unlock: seq<byte>, sequence: seq<byte>, lock: seq<byte>): seq<byte> {
    [2, 0, 0, 0, 0, 0, 0, 0, 0, 0xEF]
    + ([1] + InputLayout(prevout, unlock, sequence + [0, 0, 0, 0, 0, 0, 0, 0, 0]))
    + OutputLayout([0, 0, 0, 0, 0, 0, 0, 0], lock)
  }

  lemma {:induction false} EFOnBytes(prevout: seq<byte>, unlock: seq<byte>, sequence: seq<byte>, lock: seq<byte>)
    requires |prevout| == 36 && |unlock| <= 2 && |sequence| == 4
    ensures EFLaidOut(EFWire(prevout, unlock, sequence, lock), prevout, unlock, sequence, lock)
  {
    hide InputAt;
    hide OutputAt;
    hide InputLayout;
    hide OutputLayout;
    EFPlaced([2, 0, 0, 0, 0, 0, 0, 0, 0, 0xEF], prevout, unlock, sequence, [0, 0, 0, 0, 0, 0, 0, 0, 0],
             [0, 0, 0, 0, 0, 0, 0, 0], lock);
  }

  /** An Extended Format transaction from word p on is laid out so, its fields the next words of the stream. */
  lemma {:induction false} EFBytes(words: nat -> u64, p: nat, shim: nat, bulk: nat, q: nat)
    requires shim <= 2 && bulk < U64 && q == p + 5 + WordsFor(shim)
    ensures EFLaidOut(Print(TX, EFFrom(words, p, shim, bulk)), RandBytes(words, p, 36), RandBytes(words, p + 5, shim),
                      RandBytes(words, q, 4), RandBytes(words, q + 1, bulk))
  {
    assert shim < U64;
    hide *;
    EFLiteral(words, p, shim, bulk, q);
    EFOnBytes(RandBytes(words, p, 36), RandBytes(words, p + 5, shim), RandBytes(words, q, 4), RandBytes(words, q + 1, bulk));
  }

  lemma {:induction false} EFLiteral(words: nat -> u64, p: nat, shim: nat, bulk: nat, q: nat)
    requires shim < U64 && bulk < U64 && q == p + 5 + WordsFor(shim)
    ensures Print(TX, EFFrom(words, p, shim, bulk))
         == EFWire(RandBytes(words, p, 36), RandBytes(words, p + 5, shim), RandBytes(words, q, 4), RandBytes(words, q + 1, bulk))
  {
    EFFromPrints(words, p, shim, bulk);
    EFConstants();
    hide Print;
    hide EFFrom;
    hide RandBytes;
    hide Le;
    hide CompactSize;
    hide InputLayout;
    hide OutputLayout;
  }

  lemma {:induction false} EFConstants()
    ensures Le(2, 4) + EF_MARKER == [2, 0, 0, 0, 0, 0, 0, 0, 0, 0xEF]
    ensures Le(0, 8) == [0, 0, 0, 0, 0, 0, 0, 0] && Le(0, 8) + CompactSize(0) == [0, 0, 0, 0, 0, 0, 0, 0, 0]
  {
    SmallNumbers();
    hide Le;
  }

  class Builder {
    const rng: Rng

    constructor (words: nat -> u64)
      ensures fresh(rng) && rng.words == words && rng.pos == 0
    {
      rng := new Rng(words);
    }

    /** dst stands for the backing array of the caller's slice: its length is the slice's capacity. */
    method Build(dst: array<byte>, targetSize: int) returns (r: Result<array<byte>>)
      modifies rng, dst
      ensures r.Ok? <==> MIN_RAW_SIZE <= targetSize <= MIN_RAW_SIZE + MAX_SLACK
      ensures targetSize < MIN_RAW_SIZE <==> r == Err(BelowMinimum)
      ensures targetSize > MIN_RAW_SIZE + MAX_SLACK <==> r == Err(NoCanonicalSplit)
      ensures r.Ok? ==>
                && (if targetSize <= dst.Length then r.value == dst else fresh(r.value) && r.value.Length == targetSize)
                && Fits(TX, RawAt(rng.words, old(rng.pos), targetSize))
                && |Print(TX, RawAt(rng.words, old(rng.pos), targetSize))| == targetSize
                && r.value[..targetSize] == Print(TX, RawAt(rng.words, old(rng.pos), targetSize))
                && rng.pos == old(rng.pos) + RawWords(targetSize)
      ensures r.Ok? && r.value == dst ==> dst[targetSize..] == old(dst[targetSize..])
      ensures r.Err? || r.value != dst ==> dst[..] == old(dst[..])
      ensures r.Err? ==> rng.pos == old(rng.pos)
    {
      hide Print;
      hide Fits;
      hide RawFrom;
      hide RawAt;
      hide Shim;
      hide Bulk;
      SplitFacts(targetSize - MIN_RAW_SIZE);
      hide Wrote;
      if targetSize < MIN_RAW_SIZE {
        return Err(BelowMinimum);
      }
      var split := SplitSlack(targetSize - MIN_RAW_SIZE);
      if split.Err? {
        return Err(split.error);
      }
      var (shim, bulk) := split.value;
      var buf := dst;
      if dst.Length < targetSize {
        buf := new byte[targetSize];
      }
      RawAtSize(rng.words, rng.pos, targetSize);
      ghost var before, t := buf[..], RawAt(rng.words, rng.pos, targetSize);
      var off := PutRaw(rng, buf, shim, bulk);
      assert off == targetSize;  // tx.go 150: the internal sizing error cannot happen
      WroteWhole(before, buf[..], Print(TX, t));
      return Ok(buf);
    }

    method BuildEF(dst: array<byte>, targetSize: int) returns (r: Result<array<byte>>)
      modifies rng, dst
      ensures r.Ok? <==> MIN_EF_SIZE <= targetSize <= MIN_EF_SIZE + MAX_SLACK
      ensures targetSize < MIN_EF_SIZE <==> r == Err(BelowMinimum)
      ensures targetSize > MIN_EF_SIZE + MAX_SLACK <==> r == Err(NoCanonicalSplit)
      ensures r.Ok? ==>
                && (if targetSize <= dst.Length then r.value == dst else fresh(r.value) && r.value.Length == targetSize)
                && Fits(TX, EFAt(rng.words, old(rng.pos), targetSize))
                && |Print(TX, EFAt(rng.words, old(rng.pos), targetSize))| == targetSize
                && r.value[..targetSize] == Print(TX, EFAt(rng.words, old(rng.pos), targetSize))
                && rng.pos == old(rng.pos) + EFWords(targetSize)
      ensures r.Ok? && r.value == dst ==> dst[targetSize..] == old(dst[targetSize..])
      ensures r.Err? || r.value != dst ==> dst[..] == old(dst[..])
      ensures r.Err? ==> rng.pos == old(rng.pos)
    {
      hide Print;
      hide Fits;
      hide EFFrom;
      hide EFAt;
      hide Shim;
      hide Bulk;
      SplitFacts(targetSize - MIN_EF_SIZE);
      hide Wrote;
      if targetSize < MIN_EF_SIZE {
        return Err(BelowMinimum);
      }
      var split := SplitSlack(targetSize - MIN_EF_SIZE);
      if split.Err? {
        return Err(split.error);
      }
      var (shim, bulk) := split.value;
      var buf := dst;
      if dst.Length < targetSize {
        buf := new byte[targetSize];
      }
      EFAtSize(rng.words, rng.pos, targetSize);
      ghost var before, t := buf[..], EFAt(rng.words, rng.pos, targetSize);
      var off := PutEF(rng, buf, shim, bulk);
      assert off == targetSize;  // ef.go 81: the internal sizing error cannot happen
      WroteWhole(before, buf[..], Print(TX, t));
      return Ok(buf);
    }
  }

  // ---------------------------------------------------------------- streams of built transactions

  /** One call of Build or BuildEF. */
  datatype Order = Order(ef: bool, size: nat) {
    predicate InRange() {
      if ef then MIN_EF_SIZE <= size <= MIN_EF_SIZE + MAX_SLACK else MIN_RAW_SIZE <= size <= MIN_RAW_SIZE + MAX_SLACK
    }
  }

  function BuiltAt(words: nat -> u64, pos: nat, o: Order): Value
    requires o.InRange()
  {
    if o.ef then EFAt(words, pos, o.size) else RawAt(words, pos, o.size)
  }

  function Words(o: Order): nat
    requires o.InRange()
  {
    if o.ef then EFWords(o.size) else RawWords(o.size)
  }

  /** v is a well-formed transaction of the ordered size and kind. */
  ghost predicate AsOrdered(v: Value, o: Order) {
    Fits(TX, v) && |Print(TX, v)| == o.size && (IsEF(Print(TX, v)) <==> o.ef)
  }

  lemma OrderedFits(v: Value, o: Order)
    requires AsOrdered(v, o)
    ensures Fits(TX, v)
  {
  }

  lemma {:induction false} BuiltAtFits(words: nat -> u64, pos: nat, o: Order)
    requires o.InRange()
    ensures AsOrdered(BuiltAt(words, pos, o), o)
  {
    var v := BuiltAt(words, pos, o);
    if o.ef { EFAtSize(words, pos, o.size); } else { RawAtSize(words, pos, o.size); }
    hide Print;
    hide Fits;
    KindNeverConfused(v, []);
    assert Print(TX, v) + [] == Print(TX, v);
  }

  /** The transactions a builder makes for a list of orders, its word stream at pos. */
  function Built(words: nat -> u64, pos: nat, orders: seq<Order>): (vs: seq<Value>)
    requires forall i :: 0 <= i < |orders| ==> orders[i].InRange()
    ensures |vs| == |orders|
    decreases |orders|
  {
    if orders == [] then []
    else [BuiltAt(words, pos, orders[0])] + Built(words, pos + Words(orders[0]), orders[1..])
  }

  ghost predicate AllOrdered(vs: seq<Value>, orders: seq<Order>) {
    |vs| == |orders| && forall i :: 0 <= i < |vs| ==> AsOrdered(vs[i], orders[i])
  }

  lemma {:induction false} OneMoreOrdered(v: Value, o: Order, vs: seq<Value>, orders: seq<Order>)
    requires AsOrdered(v, o) && AllOrdered(vs, orders)
    ensures AllOrdered([v] + vs, [o] + orders)
  {
    hide AsOrdered;
  }

  lemma {:induction false} AllOrderedFit(vs: seq<Value>, orders: seq<Order>)
    requires AllOrdered(vs, orders)
    ensures FitAll(TX, vs)
  {
    hide AsOrdered;
    hide Fits;
    forall i | 0 <= i < |vs|
      ensures Fits(TX, vs[i])
    {
      OrderedFits(vs[i], orders[i]);
    }
  }

  lemma {:induction false} BuiltFits(words: nat -> u64, pos: nat, orders: seq<Order>)
    requires forall i :: 0 <= i < |orders| ==> orders[i].InRange()
    ensures AllOrdered(Built(words, pos, orders), orders) && FitAll(TX, Built(words, pos, orders))
    decreases |orders|
  {
    hide AsOrdered;
    hide BuiltAt;
    hide Words;
    if orders == [] {
    } else {
      var v, rest := BuiltAt(words, pos, orders[0]), Built(words, pos + Words(orders[0]), orders[1..]);
      BuiltAtFits(words, pos, orders[0]);
      BuiltFits(words, pos + Words(orders[0]), orders[1..]);
      OneMoreOrdered(v, orders[0], rest, orders[1..]);
      hide AllOrdered;
      assert orders == [orders[0]] + orders[1..];
    }
    AllOrderedFit(Built(words, pos, orders), orders);
  }

  /** A back-to-back stream of built transactions, raw and EF in any mix and of any sizes, splits
      into exactly the transactions that were built, each of the ordered size and kind. */
  lemma {:induction false} BuiltStreamSplits(words: nat -> u64, pos: nat, orders: seq<Order>)
    requires forall i :: 0 <= i < |orders| ==> orders[i].InRange()
    ensures MinSize(TX) > 0
    ensures var vs := Built(words, pos, orders);
            && WalkAll(TX, PrintMany(TX, vs)) == Walk(vs, [], false)
            && AllOrdered(vs, orders)
  {
    hide Print;
    hide PrintMany;
    hide Fits;
    hide Built;
    hide WalkAll;
    hide AllOrdered;
    hide BuiltAt;
    hide Words;
    FormatsUsable();
    hide Usable;
    hide MinSize;
    BuiltFits(words, pos, orders);
    var vs := Built(words, pos, orders);
    WalkSplits(TX, vs, []);
    NothingWalked(TX);
    assert PrintMany(TX, vs) + [] == PrintMany(TX, vs) && vs + [] == vs;
  }

  /** The standard serialisation of a built EF transaction is a raw one, fifteen bytes shorter. */
  lemma {:induction false} EFStandardSize(words: nat -> u64, pos: nat, size: nat)
    requires MIN_EF_SIZE <= size <= MIN_EF_SIZE + MAX_SLACK
    ensures var t := EFAt(words, pos, size);
            Fits(TX, t) && Fits(TX, ToStandard(t)) && |Print(TX, ToStandard(t))| == size - 15
  {
    EFAtSize(words, pos, size);
    var t := EFAt(words, pos, size);
    EFBodyFits(t);
    hide Print;
    hide RandBytes;
    hide Le;
    StandardFits(t);
    OneInputExtras(t);
  }

  lemma {:induction false} OneInputExtras(t: Value)
    requires Fits(TX, t) && t.snd.OnZero? && Fits(Body(EF_INPUT), t.snd.v.snd)
    requires |t.snd.v.snd.fst.items| == 1 && Fits(EF_INPUT, t.snd.v.snd.fst.items[0])
    requires t.snd.v.snd.fst.items[0].snd.snd.snd == Pair(Raw(Le(0, 8)), Raw([]))
    ensures FitAll(EF_INPUT, t.snd.v.snd.fst.items) && ExtraSizes(t.snd.v.snd.fst.items) == 9
  {
    var ins := t.snd.v.snd.fst.items;
    EmptyExtras(ins[0].snd.snd.snd);
    hide Print;
    hide Le;
    hide Fits;
    assert ins[1..] == [];
  }

  lemma {:induction false} ScriptsOfRaw(words: nat -> u64, p: nat, shim: nat, bulk: nat)
    ensures var t := RawFrom(words, p, shim, bulk);
            |UnlockingScript(t)| == shim && |LockingScript(t)| == bulk
  {
    hide RandBytes;
    hide Le;
  }

  lemma {:induction false} ScriptsOfEF(words: nat -> u64, p: nat, shim: nat, bulk: nat)
    ensures var t := EFFrom(words, p, shim, bulk);
            |UnlockingScript(t)| == shim && |LockingScript(t)| == bulk
  {
    hide RandBytes;
    hide Le;
  }

  /** a and b have the same unlocking and the same locking script. */
  predicate SameScripts(a: Value, b: Value) {
    UnlockingScript(a) == UnlockingScript(b) && LockingScript(a) == LockingScript(b)
  }

  predicate SameScriptLengths(a: Value, b: Value) {
    |UnlockingScript(a)| == |UnlockingScript(b)| && |LockingScript(a)| == |LockingScript(b)|
  }

  lemma {:induction false} SameSplit(words: nat -> u64, pos: nat, size: nat, words': nat -> u64, pos': nat)
    requires MIN_EF_SIZE <= size <= MIN_EF_SIZE + MAX_SLACK
    ensures SameScriptLengths(EFAt(words, pos, size), RawAt(words', pos', size - 15))
  {
    hide Shim;
    hide Bulk;
    hide UnlockingScript;
    hide LockingScript;
    hide RawFrom;
    hide EFFrom;
    ScriptsOfEF(words, pos, Shim(size - MIN_EF_SIZE), Bulk(size - MIN_EF_SIZE));
    ScriptsOfRaw(words', pos', Shim(size - MIN_EF_SIZE), Bulk(size - MIN_EF_SIZE));
  }

  /** Dropping the EF marker and the per-input extras from an EF transaction of a given size leaves a
      well-formed raw transaction fifteen bytes shorter, with its scripts, and those of the lengths Build
      picks at that size. */
  lemma {:induction false} EFToRaw(words: nat -> u64, pos: nat, size: nat, words': nat -> u64, pos': nat)
    requires MIN_EF_SIZE <= size <= MIN_EF_SIZE + MAX_SLACK
    ensures var t := EFAt(words, pos, size);
            && Fits(TX, t) && Fits(TX, ToStandard(t)) && |Print(TX, ToStandard(t))| == size - 15
            && SameScripts(ToStandard(t), t)
            && SameScriptLengths(t, RawAt(words', pos', size - 15))
  {
    EFStandardSize(words, pos, size);
    hide Print;
    hide Fits;
    hide ToStandard;
    hide SameScripts;
    hide SameScriptLengths;
    SameSplit(words, pos, size, words', pos');
    EFKeepsScripts(words, pos, Shim(size - MIN_EF_SIZE), Bulk(size - MIN_EF_SIZE));
  }

  lemma {:induction false} EFKeepsScripts(words: nat -> u64, p: nat, shim: nat, bulk: nat)
    requires Fits(TX, EFFrom(words, p, shim, bulk))
    ensures var t := EFFrom(words, p, shim, bulk);
            SameScripts(ToStandard(t), t)
  {
    hide RandBytes;
    hide Le;
    var t := EFFrom(words, p, shim, bulk);
    EFBodyFits(t);
    StandardScripts(t);
  }

  lemma {:induction false} EFBodyFits(t: Value)
    requires Fits(TX, t) && t.snd.OnZero?
    ensures Fits(Body(EF_INPUT), t.snd.v.snd)
  {
    assert Fits(IfZero(EF_BODY, RAW_BODY), t.snd) && Fits(EF_BODY, t.snd.v);
  }

  lemma {:induction false} EmptyExtras(v: Value)
    requires v == Pair(Raw(Le(0, 8)), Raw([]))
    ensures |Print(Then(Fixed(8), Blob(Compact)), v)| == 9
  {
    assert |Print(Blob(Compact), Raw([]))| == 1;
  }
}
