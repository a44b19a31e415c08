/** Bytes, digests and the fixed-width integers of Go's encoding/binary. */
module Bytes {
  import opened Numbers

  type byte = x: int | 0 <= x < 256

  /** A [32]byte value: a node hash, a block hash, a transaction id. */
  type Digest = s: seq<byte> | |s| == 32 witness Le(0, 32)

  const ZERO: Digest := Le(0, 32)

  /** SHA-256 is never computed here: every member that hashes takes it as a parameter. */
  type Sha = seq<byte> -> Digest

  function Sha256d(sha: Sha, s: seq<byte>): Digest {
    sha(sha(s))
  }

  function Fill(b: byte, n: nat): (s: seq<byte>)
    ensures |s| == n && forall i :: 0 <= i < n ==> s[i] == b
  {
    if n == 0 then [] else [b] + Fill(b, n - 1)
  }

  function Concat(a: seq<byte>, b: seq<byte>): seq<byte> {
    a + b
  }

  lemma Assoc(a: seq<byte>, b: seq<byte>, c: seq<byte>)
    ensures a + b + c == a + (b + c)
  {
  }

  lemma {:induction false} Regroup(s: seq<byte>, n: nat, x: seq<byte>, y: seq<byte>, rest: seq<byte>)
    requires n <= |s| && x == s[..n] && y + rest == s[n..]
    ensures x + y + rest == s
  {
    Assoc(x, y, rest);
  }

  const U32: nat := 0x1_0000_0000
  const U64: nat := 0x1_0000_0000_0000_0000

  type u32 = x: int | 0 <= x < 0x1_0000_0000
  type u64 = x: int | 0 <= x < 0x1_0000_0000_0000_0000

  function Pow256(n: nat): (p: nat)
    ensures p > 0
  {
    if n == 0 then 1 else 256 * Pow256(n - 1)
  }

  lemma {:induction false} Widths()
    ensures Pow256(1) == 256 && Pow256(2) == 0x1_0000 && Pow256(4) == U32 && Pow256(8) == U64
  {
    assert Pow256(2) == 256 * Pow256(1);
    assert Pow256(3) == 256 * Pow256(2);
    assert Pow256(4) == 256 * Pow256(3);
    assert Pow256(5) == 256 * Pow256(4);
    assert Pow256(6) == 256 * Pow256(5);
    assert Pow256(7) == 256 * Pow256(6);
    assert Pow256(8) == 256 * Pow256(7);
  }

  /** The low n bytes of v, least significant first. */
  function Le(v: nat, n: nat): (s: seq<byte>)
    ensures |s| == n
  {
    if n == 0 then [] else [v % 256] + Le(v / 256, n - 1)
  }

  function FromLe(s: seq<byte>): nat {
    if s == [] then 0 else s[0] + 256 * FromLe(s[1..])
  }

  /** The low n bytes of v, most significant first. */
  function Be(v: nat, n: nat): (s: seq<byte>)
    ensures |s| == n
  {
    if n == 0 then [] else Be(v / 256, n - 1) + [v % 256]
  }

  function FromBe(s: seq<byte>): nat {
    if s == [] then 0 else 256 * FromBe(s[..|s| - 1]) + s[|s| - 1]
  }

  lemma {:induction false} LeUndone(v: nat, n: nat)
    requires v < Pow256(n)
    ensures FromLe(Le(v, n)) == v
  {
    if n == 0 {
    } else {
      assert v / 256 < Pow256(n - 1);
      LeUndone(v / 256, n - 1);
      assert Le(v, n)[1..] == Le(v / 256, n - 1);
    }
  }

  lemma Digit(low: byte, high: nat)
    ensures (low + 256 * high) % 256 == low && (low + 256 * high) / 256 == high
  {
  }

  lemma {:induction false} FromLeUndone(s: seq<byte>)
    ensures FromLe(s) < Pow256(|s|)
    ensures Le(FromLe(s), |s|) == s
  {
    if s == [] {
    } else {
      FromLeUndone(s[1..]);
      Digit(s[0], FromLe(s[1..]));
      assert s == [s[0]] + s[1..];
    }
  }

  lemma {:induction false} BeUndone(v: nat, n: nat)
    requires v < Pow256(n)
    ensures FromBe(Be(v, n)) == v
  {
    if n == 0 {
    } else {
      assert v / 256 < Pow256(n - 1);
      BeUndone(v / 256, n - 1);
      assert Be(v, n)[..n - 1] == Be(v / 256, n - 1);
    }
  }

  lemma {:induction false} FromBeUndone(s: seq<byte>)
    ensures FromBe(s) < Pow256(|s|)
    ensures Be(FromBe(s), |s|) == s
  {
    if s == [] {
    } else {
      var k := |s| - 1;
      FromBeUndone(s[..k]);
      Digit(s[k], FromBe(s[..k]));
      assert s == s[..k] + [s[k]];
    }
  }

  /** A value that fits is read back from its 32-bit field. */
  lemma {:induction false} Be32Undone(n: nat)
    requires n < U32
    ensures FromBe(Be(n, 4)) == n && n % U32 == n
  {
    Widths();
    hide Be;
    hide FromBe;
    BeUndone(n, 4);
  }

  /** Byte i of a little-endian number is its i-th base-256 digit. */
  lemma {:induction false} LeByte(v: nat, n: nat, i: nat)
    requires i < n
    ensures Le(v, n)[i] == v / Pow256(i) % 256
  {
    if i == 0 {
      assert Pow256(0) == 1;
    } else {
      LeByte(v / 256, n - 1, i - 1);
      DivideTwice(v, Pow256(i - 1));
    }
  }

  /** ... and byte i of a big-endian one its digit i places from the top. */
  lemma {:induction false} BeByte(v: nat, n: nat, i: nat)
    requires i < n
    ensures Be(v, n)[i] == v / Pow256(n - 1 - i) % 256
  {
    if i == n - 1 {
      assert Pow256(0) == 1;
    } else {
      BeByte(v / 256, n - 1, i);
      DivideTwice(v, Pow256(n - 2 - i));
    }
  }

  lemma {:induction false} DivideTwice(v: nat, p: nat)
    requires p > 0
    ensures v / 256 / p == v / (256 * p)
  {
    var q, r := v / 256 / p, v / 256 % p;
    Regrouped(q, p);
    Unique(v, 256 * p, q, 256 * r + v % 256, v / (256 * p), v % (256 * p));
  }

  lemma {:induction false} ZeroAt(v: nat, n: nat)
    requires v == 0
    ensures forall i :: 0 <= i < n ==> Le(v, n)[i] == 0
  {
    if n > 0 {
      ZeroAt(0, n - 1);
    }
  }

  lemma {:induction false} ZeroFromBe(s: seq<byte>)
    ensures FromBe(s) == 0 <==> forall i :: 0 <= i < |s| ==> s[i] == 0
  {
    if s != [] {
      var k := |s| - 1;
      ZeroFromBe(s[..k]);
      assert forall i :: 0 <= i < k ==> s[i] == s[..k][i];
    }
  }

  lemma {:induction false} FromBeLast(s: seq<byte>)
    requires s != []
    ensures FromBe(s) == 256 * FromBe(s[..|s| - 1]) + s[|s| - 1]
  {
  }

  /** The value of a big-endian field, split after its first k bytes. */
  lemma {:induction false} FromBeSplit(s: seq<byte>, k: nat)
    requires k <= |s|
    ensures FromBe(s) == FromBe(s[..k]) * Pow256(|s| - k) + FromBe(s[k..])
    ensures FromBe(s[k..]) < Pow256(|s| - k)
  {
    FromBeUndone(s[k..]);
    FromBeSplitValue(s, k);
  }

  lemma {:induction false} FromBeSplitValue(s: seq<byte>, k: nat)
    requires k <= |s|
    ensures FromBe(s) == FromBe(s[..k]) * Pow256(|s| - k) + FromBe(s[k..])
  {
    hide FromBe;
    if k == |s| {
      assert s[..k] == s && s[k..] == [];
      NoBytes();
    } else {
      var n := |s| - 1;
      FromBeSplitValue(s[..n], k);
      FromBeLast(s);
      FromBeLast(s[k..]);
      SlicesOfSlices(s, n, k);
      PowStep(n - k);
      hide Pow256;
      OneMoreByte(FromBe(s[..k]), Pow256(n - k), FromBe(s[k..][..n - k]), s[n]);
    }
  }

  lemma NoBytes()
    ensures FromBe([]) == 0 && Pow256(0) == 1
  {
  }

  lemma PowStep(n: nat)
    ensures Pow256(n + 1) == 256 * Pow256(n)
  {
  }

  lemma SlicesOfSlices(s: seq<byte>, n: nat, k: nat)
    requires k <= n && n + 1 == |s|
    ensures s[..n][..k] == s[..k] && s[..n][k..] == s[k..][..n - k] && s[k..][n - k] == s[n]
  {
  }

  lemma {:induction false} OneMoreByte(a: nat, p: nat, b: nat, last: nat)
    ensures 256 * (a * p + b) + last == a * (256 * p) + (256 * b + last)
  {
    Times256(a, p);
  }

  lemma Times256(a: nat, p: nat)
    ensures 256 * (a * p) == a * (256 * p)
  {
  }

  lemma SliceOfPrefix(s: seq<byte>, n: nat, a: nat, b: nat)
    requires a <= b <= n <= |s|
    ensures s[..n][a..b] == s[a..b]
  {
  }
}
