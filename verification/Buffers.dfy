/** Buffers filled at a moving offset: writing in place, and the ChaCha8 byte stream that fills them. */
module Buffers {
  import opened Bytes

  /** b was written at off and nothing else changed. */
  ghost predicate Wrote(before: seq<byte>, after: seq<byte>, off: nat, b: seq<byte>) {
    off + |b| <= |before| && after == before[..off] + b + before[off + |b|..]
  }

  lemma {:induction false} WroteThen(s0: seq<byte>, s1: seq<byte>, s2: seq<byte>, off: nat, b: seq<byte>, c: seq<byte>)
    requires Wrote(s0, s1, off, b) && Wrote(s1, s2, off + |b|, c)
    ensures Wrote(s0, s2, off, b + c)
  {
    var end := off + |b|;
    assert s1[..end] == s0[..off] + b;
    assert s1[end + |c|..] == s0[end..][|c|..] == s0[end + |c|..];
    assert s0[..off] + b + c == s0[..off] + (b + c);
  }

  lemma {:induction false} WroteNothing(s: seq<byte>, off: nat)
    requires off <= |s|
    ensures Wrote(s, s, off, [])
  {
    assert s == s[..off] + [] + s[off..];
  }

  lemma WroteWhole(before: seq<byte>, after: seq<byte>, b: seq<byte>)
    requires Wrote(before, after, 0, b)
    ensures |after| == |before| && after[..|b|] == b && after[|b|..] == before[|b|..]
  {
  }

  lemma WroteTail(before: seq<byte>, after: seq<byte>, off: nat, b: seq<byte>)
    requires Wrote(before, after, off, b) && off + |b| == |before|
    ensures |after| == |before| && after[..off] == before[..off] && after[off..] == b
  {
  }

  lemma WroteFront(before: seq<byte>, after: seq<byte>, b: seq<byte>)
    requires Wrote(before, after, 0, b)
    ensures after == b + before[|b|..]
  {
  }

  /** copy(dst[off:], b), and binary.LittleEndian.PutUint16/32/64 with b == Le(v, 2/4/8). */
  method Put(dst: array<byte>, off: nat, b: seq<byte>) returns (end: nat)
    requires off + |b| <= dst.Length
    modifies dst
    ensures end == off + |b| && Wrote(old(dst[..]), dst[..], off, b)
  {
    forall i | 0 <= i < |b| {
      dst[off + i] := b[i];
    }
    end := off + |b|;
    assert dst[off..end] == b;
    assert dst[..] == dst[..off] + dst[off..end] + dst[end..];
  }

  // ---------------------------------------------------------------- the random byte stream

  /** A ChaCha8 generator: a fixed word stream and the number of words already drawn. */
  class Rng {
    const words: nat -> u64
    var pos: nat

    constructor (words: nat -> u64)
      ensures this.words == words && pos == 0
    {
      this.words := words;
      pos := 0;
    }

    method Uint64() returns (w: u64)
      modifies this
      ensures w == words(old(pos)) && pos == old(pos) + 1
    {
      w := words(pos);
      pos := pos + 1;
    }
  }

  function WordsFor(n: nat): nat {
    (n + 7) / 8
  }

  /** n bytes of the stream from word pos on; the last word is cut when n is not a multiple of 8. */
  function RandBytes(words: nat -> u64, pos: nat, n: nat): (s: seq<byte>)
    ensures |s| == n
    decreases n
  {
    if n < 8 then Le(words(pos), 8)[..n] else Le(words(pos), 8) + RandBytes(words, pos + 1, n - 8)
  }

  lemma {:induction false} RandWord(words: nat -> u64, pos: nat, n: nat)
    requires n <= 8
    ensures RandBytes(words, pos, n) == Le(words(pos), 8)[..n]
  {
    if n == 8 {
      assert RandBytes(words, pos + 1, 0) == [];
    }
  }

  lemma {:induction false} RandStep(words: nat -> u64, pos: nat, done: seq<byte>, left: nat)
    requires left >= 8
    ensures done + RandBytes(words, pos, 8) + RandBytes(words, pos + 1, left - 8) == done + RandBytes(words, pos, left)
  {
    RandWord(words, pos, 8);
    hide Le;
    Assoc(done, Le(words(pos), 8), RandBytes(words, pos + 1, left - 8));
  }

  lemma WordStep(left: nat)
    ensures left >= 8 ==> WordsFor(left) == 1 + WordsFor(left - 8)
    ensures 0 < left < 8 ==> WordsFor(left) == 1
    ensures left == 0 ==> WordsFor(left) == 0
  {
  }

  /** Byte i of the stream is byte i % 8 of word i / 8. */
  lemma {:induction false} RandByte(words: nat -> u64, pos: nat, n: nat, i: nat)
    requires i < n
    ensures RandBytes(words, pos, n)[i] == Le(words(pos + i / 8), 8)[i % 8]
    decreases n
  {
    hide Le;
    if n >= 8 && i >= 8 {
      RandByte(words, pos + 1, n - 8, i - 8);
    }
  }

  /** PutUint64, or the copy of its first n bytes that ends a buffer. */
  method PutWord(r: Rng, dst: array<byte>, off: nat, n: nat) returns (end: nat)
    requires n <= 8 && off + n <= dst.Length
    modifies r, dst
    ensures end == off + n && r.pos == old(r.pos) + 1
    ensures Wrote(old(dst[..]), dst[..], off, RandBytes(r.words, old(r.pos), n))
  {
    hide Wrote;
    hide RandBytes;
    hide Le;
    RandWord(r.words, r.pos, n);
    var w := r.Uint64();
    end := Put(dst, off, Le(w, 8)[..n]);
  }

  method FillRand(r: Rng, dst: array<byte>, off: nat, n: nat) returns (end: nat)
    requires off + n <= dst.Length
    modifies r, dst
    ensures end == off + n && r.pos == old(r.pos) + WordsFor(n)
    ensures Wrote(old(dst[..]), dst[..], off, RandBytes(r.words, old(r.pos), n))
  {
    hide Wrote;
    hide RandBytes;
    hide WordsFor;
    ghost var s0, p0 := dst[..], r.pos;
    ghost var all := RandBytes(r.words, p0, n);
    end := off;
    var left := n;
    ghost var done: seq<byte> := [];
    WroteNothing(s0, off);
    assert done + all == all;
    while left >= 8
      invariant 0 <= left && end + left == off + n && end == off + |done|
      invariant r.pos + WordsFor(left) == p0 + WordsFor(n)
      invariant done + RandBytes(r.words, r.pos, left) == all
      invariant Wrote(s0, dst[..], off, done)
    {
      ghost var before, word := dst[..], RandBytes(r.words, r.pos, 8);
      RandStep(r.words, r.pos, done, left);
      WordStep(left);
      end := PutWord(r, dst, end, 8);
      WroteThen(s0, before, dst[..], off, done, word);
      done := done + word;
      left := left - 8;
    }
    WordStep(left);
    if left > 0 {
      ghost var before, last := dst[..], RandBytes(r.words, r.pos, left);
      end := PutWord(r, dst, end, left);
      WroteThen(s0, before, dst[..], off, done, last);
    } else {
      assert done == done + RandBytes(r.words, r.pos, left);
    }
  }
}
