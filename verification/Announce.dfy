/** internal/announce: the group-id parser, the phase ramp and the announcement rounds. */
module Announce {
  import opened Bytes

  type GroupID = s: seq<byte> | |s| == 16 witness Le(0, 16)

  datatype Result<+T> = Ok(value: T) | Err(part: string)

  // ---------------------------------------------------------------- splitting at commas

  /** The parts between the commas: one more than there are commas. */
  function Parts(s: string): (ps: seq<string>)
    ensures |ps| > 0
  {
    if s == "" then [""]
    else if s[0] == ',' then [""] + Parts(s[1..])
    else var ps := Parts(s[1..]); [[s[0]] + ps[0]] + ps[1..]
  }

  lemma {:induction false} PartsOfPlain(s: string)
    requires ',' !in s
    ensures Parts(s) == [s]
  {
    if s != "" {
      PartsOfPlain(s[1..]);
      assert s[0] in s && [s[0]] + s[1..] == s;
    }
  }

  lemma {:induction false} PartsAtComma(x: string, rest: string)
    requires ',' !in x
    ensures Parts(x + "," + rest) == [x] + Parts(rest)
  {
    if x == "" {
      assert x + "," + rest == "," + rest;
      assert ("," + rest)[1..] == rest;
    } else {
      var s := x + "," + rest;
      assert s[1..] == x[1..] + "," + rest && s[0] == x[0] && x[0] in x;
      PartsAtComma(x[1..], rest);
      assert ([x[1..]] + Parts(rest))[1..] == Parts(rest) && [x[0]] + x[1..] == x;
    }
  }

  lemma {:induction false} CommaStep(s: string, start: nat, i: nat)
    requires start <= i < |s| && s[i] == ',' && ',' !in s[start..i]
    ensures Parts(s[start..]) == [s[start..i]] + Parts(s[i + 1..])
  {
    assert s[start..] == s[start..i] + "," + s[i + 1..];
    PartsAtComma(s[start..i], s[i + 1..]);
  }

  function JoinParts(ps: seq<string>): string
    requires ps != []
  {
    if |ps| == 1 then ps[0] else ps[0] + "," + JoinParts(ps[1..])
  }

  /** The parts have no commas in them, and joined by commas they are the string. */
  lemma {:induction false} PartsExactly(s: string)
    ensures forall i :: 0 <= i < |Parts(s)| ==> ',' !in Parts(s)[i]
    ensures JoinParts(Parts(s)) == s
  {
    if s != "" {
      PartsExactly(s[1..]);
      var ps := Parts(s[1..]);
      if s[0] == ',' {
        assert ([""] + ps)[1..] == ps;
        assert "" + "," + s[1..] == s;
      } else {
        FirstPart([s[0]], ps);
        assert [s[0]] + s[1..] == s;
      }
    }
  }

  lemma {:induction false} FirstPart(x: string, ps: seq<string>)
    requires ps != []
    ensures JoinParts([x + ps[0]] + ps[1..]) == x + JoinParts(ps)
  {
    var qs := [x + ps[0]] + ps[1..];
    if |ps| > 1 {
      assert qs[1..] == ps[1..];
      assert x + ps[0] + "," + JoinParts(ps[1..]) == x + (ps[0] + "," + JoinParts(ps[1..]));
    }
  }

  method SplitComma(s: string) returns (out: seq<string>)
    ensures out == Parts(s)
  {
    hide Parts;
    out := [];
    var start := 0;
    assert s[0..] == s;
    for i := 0 to |s|
      invariant start <= i && ',' !in s[start..i]
      invariant out + Parts(s[start..]) == Parts(s)
    {
      if s[i] == ',' {
        CommaStep(s, start, i);
        out := out + [s[start..i]];
        start := i + 1;
      }
    }
    PartsOfPlain(s[start..]);
    out := out + [s[start..]];
  }

  // ---------------------------------------------------------------- hexadecimal

  const NOT_HEX: byte := 0xFF

  function HexNibble(c: char): (n: byte)
    ensures n < 16 || n == NOT_HEX
  {
    if '0' <= c <= '9' then (c - '0') as int
    else if 'a' <= c <= 'f' then (c - 'a') as int + 10
    else if 'A' <= c <= 'F' then (c - 'A') as int + 10
    else NOT_HEX
  }

  predicate IsHex(s: string) {
    forall i :: 0 <= i < |s| ==> HexNibble(s[i]) != NOT_HEX
  }

  function ByteAt(s: string, i: nat): byte
    requires 2 * i + 1 < |s| && IsHex(s)
  {
    Pair(HexNibble(s[2 * i]), HexNibble(s[2 * i + 1]))
  }

  /** hi<<4 | lo. */
  function Pair(hi: nat, lo: nat): byte
    requires hi < 16 && lo < 16
  {
    hi * 16 + lo
  }

  /** The bytes an even-length hexadecimal string spells. */
  function HexBytes(s: string): (b: seq<byte>)
    requires |s| % 2 == 0 && IsHex(s)
    ensures |b| == |s| / 2
  {
    if s == "" then [] else [ByteAt(s, 0)] + HexBytes(s[2..])
  }

  lemma {:induction false} HexBytesAt(s: string, i: nat)
    requires |s| % 2 == 0 && IsHex(s) && 2 * i < |s|
    ensures HexBytes(s)[i] == ByteAt(s, i)
  {
    if i > 0 {
      HexBytesAt(s[2..], i - 1);
    }
  }

  /** Byte i is spelled by digits 2i and 2i + 1, the high one first. */
  lemma {:induction false} HexSpells(s: string, i: nat)
    requires |s| % 2 == 0 && IsHex(s) && 2 * i < |s|
    ensures HexBytes(s)[i] == 16 * HexNibble(s[2 * i]) + HexNibble(s[2 * i + 1])
  {
    HexBytesAt(s, i);
  }

  method HexDecode(s: string) returns (r: Result<seq<byte>>)
    ensures r.Ok? <==> |s| % 2 == 0 && IsHex(s)
    ensures r.Ok? ==> r.value == HexBytes(s)
    ensures r.Err? ==> r.part == s
  {
    if |s| % 2 != 0 {
      return Err(s);
    }
    var b: seq<byte> := [];
    for i := 0 to |s| / 2
      invariant |b| == i && forall j :: 0 <= j < 2 * i ==> HexNibble(s[j]) != NOT_HEX
      invariant forall j :: 0 <= j < i ==> b[j] == Pair(HexNibble(s[2 * j]), HexNibble(s[2 * j + 1]))
    {
      var hi, lo := HexNibble(s[2 * i]), HexNibble(s[2 * i + 1]);
      if hi == NOT_HEX || lo == NOT_HEX {
        return Err(s);
      }
      b := b + [Pair(hi, lo)];
    }
    forall i | 0 <= i < |b|
      ensures b[i] == HexBytes(s)[i]
    {
      HexBytesAt(s, i);
    }
    return Ok(b);
  }

  // ---------------------------------------------------------------- ParseGroupIDs

  predicate IsID(part: string) {
    |part| == 32 && IsHex(part)
  }

  function IDOf(part: string): GroupID
    requires IsID(part)
  {
    HexBytes(part)
  }

  /** The ids of the non-empty parts, or the first non-empty part that is not 32 hex digits. */
  function IDs(parts: seq<string>): Result<seq<GroupID>> {
    if parts == [] then Ok([])
    else if parts[0] == "" then IDs(parts[1..])
    else if !IsID(parts[0]) then Err(parts[0])
    else
      match IDs(parts[1..])
      case Err(p) => Err(p)
      case Ok(ids) => Ok([IDOf(parts[0])] + ids)
  }

  method ParseGroupIDs(s: string) returns (r: Result<seq<GroupID>>)
    ensures r == IDs(Parts(s))
  {
    if s == "" {
      assert [""][1..] == [];
      return Ok([]);
    }
    var out: seq<GroupID> := [];
    var parts := SplitComma(s);
    assert parts[0..] == parts;
    BeforeNothing(IDs(parts));
    for i := 0 to |parts|
      invariant IDs(parts) == Before(out, IDs(parts[i..]))
    {
      var part := parts[i];
      assert parts[i..][1..] == parts[i + 1..];
      if part == "" {
        continue;
      }
      var b := HexDecode(part);
      if b.Err? || |b.value| != 16 {
        return Err(part);
      }
      BeforeCons(out, b.value, IDs(parts[i + 1..]));
      out := out + [b.value];
    }
    assert out + [] == out;
    return Ok(out);
  }

  function Before(ids: seq<GroupID>, r: Result<seq<GroupID>>): Result<seq<GroupID>> {
    match r
    case Err(p) => Err(p)
    case Ok(more) => Ok(ids + more)
  }

  lemma {:induction false} BeforeNothing(r: Result<seq<GroupID>>)
    ensures Before([], r) == r
  {
    if r.Ok? {
      assert [] + r.value == r.value;
    }
  }

  lemma {:induction false} BeforeCons(ids: seq<GroupID>, id: GroupID, r: Result<seq<GroupID>>)
    ensures r.Ok? ==> Before(ids, Ok([id] + r.value)) == Before(ids + [id], r)
  {
    if r.Ok? {
      assert ids + ([id] + r.value) == ids + [id] + r.value;
    }
  }

  /** Parsing succeeds exactly when every non-empty part is 32 hexadecimal digits; the error names the
      first that is not. */
  lemma {:induction false} ParsesExactly(parts: seq<string>)
    ensures IDs(parts).Ok? <==> forall i :: 0 <= i < |parts| ==> parts[i] == "" || IsID(parts[i])
    ensures IDs(parts).Err? ==> exists i :: 0 <= i < |parts| && parts[i] == IDs(parts).part && parts[i] != "" && !IsID(parts[i])
                                            && forall j :: 0 <= j < i ==> parts[j] == "" || IsID(parts[j])
  {
    if parts != [] {
      ParsesExactly(parts[1..]);
      assert forall i :: 0 < i < |parts| ==> parts[i] == parts[1..][i - 1];
      if IDs(parts).Err? && (parts[0] == "" || IsID(parts[0])) {
        var rest := parts[1..];
        var i :| 0 <= i < |rest| && rest[i] == IDs(rest).part && rest[i] != "" && !IsID(rest[i])
                 && forall j :: 0 <= j < i ==> rest[j] == "" || IsID(rest[j]);
        assert parts[i + 1] == rest[i];
        assert forall j :: 0 < j < i + 1 ==> parts[j] == rest[j - 1];
      }
    }
  }

  /** Every non-empty part gives one id, in order, ... */
  lemma {:induction false} IDsInOrder(parts: seq<string>)
    requires forall i :: 0 <= i < |parts| ==> |parts[i]| == 32 && IsHex(parts[i])
    ensures IDs(parts).Ok? && |IDs(parts).value| == |parts|
    ensures forall i :: 0 <= i < |parts| ==> IDs(parts).value[i] == HexBytes(parts[i])
  {
    hide IsHex;
    hide HexBytes;
    if parts != [] {
      IDsInOrder(parts[1..]);
      var ids := IDs(parts).value;
      assert ids == [IDOf(parts[0])] + IDs(parts[1..]).value;
      forall i | 0 <= i < |parts|
        ensures ids[i] == HexBytes(parts[i])
      {
        if i > 0 { assert ids[i] == IDs(parts[1..]).value[i - 1] && parts[i] == parts[1..][i - 1]; }
      }
    }
  }

  /** ... and empty parts, wherever they are, make no difference. */
  lemma {:induction false} EmptyPartsSkipped(front: seq<string>, back: seq<string>)
    ensures IDs(front + [""] + back) == IDs(front + back)
  {
    if front == [] {
      assert front + [""] + back == [""] + back && ([""] + back)[1..] == back && front + back == back;
    } else {
      EmptyPartsSkipped(front[1..], back);
      assert (front + [""] + back)[1..] == front[1..] + [""] + back;
      assert (front + back)[1..] == front[1..] + back;
    }
  }

  // ---------------------------------------------------------------- printing undone

  const DIGITS := "0123456789abcdef"

  function Hex(b: seq<byte>): (s: string)
    ensures |s| == 2 * |b|
  {
    if b == [] then "" else [DIGITS[b[0] / 16], DIGITS[b[0] % 16]] + Hex(b[1..])
  }

  function JoinIDs(ids: seq<GroupID>): string
    requires ids != []
  {
    if |ids| == 1 then Hex(ids[0]) else Hex(ids[0]) + "," + JoinIDs(ids[1..])
  }

  const UPPER_DIGITS := "0123456789ABCDEF"

  lemma DigitsAreHex(n: nat)
    requires n < 16
    ensures HexNibble(DIGITS[n]) == n
  {
  }

  /** Of all characters only the two digits for n, lower and upper case, have the value n. */
  lemma {:induction false} NibbleExactly(c: char, n: nat)
    requires n < 16
    ensures HexNibble(c) == n <==> c == DIGITS[n] || c == UPPER_DIGITS[n]
  {
    DigitsAreHex(n);
    if n < 10 {
      assert DIGITS[n] == UPPER_DIGITS[n] == '0' + n as char;
    } else {
      assert DIGITS[n] == 'a' + (n - 10) as char && UPPER_DIGITS[n] == 'A' + (n - 10) as char;
    }
  }

  lemma {:induction false} HexFront(b: seq<byte>)
    requires b != []
    ensures var s := Hex(b);
            && s[2..] == Hex(b[1..])
            && HexNibble(s[0]) < 16 && HexNibble(s[1]) < 16 && Pair(HexNibble(s[0]), HexNibble(s[1])) == b[0]
  {
    DigitsAreHex(b[0] / 16);
    DigitsAreHex(b[0] % 16);
  }

  lemma {:induction false} TwoMore(s: string, t: string)
    requires |s| >= 2 && |s| % 2 == 0 && s[2..] == t && IsHex(t)
    requires HexNibble(s[0]) < 16 && HexNibble(s[1]) < 16
    ensures IsHex(s)
    ensures HexBytes(s) == [Pair(HexNibble(s[0]), HexNibble(s[1]))] + HexBytes(t)
  {
    hide HexNibble;
    forall i | 0 <= i < |s|
      ensures HexNibble(s[i]) != NOT_HEX
    {
      if i >= 2 { assert s[i] == t[i - 2]; }
    }
  }

  lemma HexOfNothing()
    ensures Hex([]) == "" && IsHex("") && HexBytes("") == []
  {
  }

  lemma {:induction false} HexUndone(b: seq<byte>)
    ensures IsHex(Hex(b)) && HexBytes(Hex(b)) == b
  {
    hide Hex;
    hide IsHex;
    hide HexNibble;
    hide HexBytes;
    if b == [] {
      HexOfNothing();
    } else {
      HexUndone(b[1..]);
      HexFront(b);
      TwoMore(Hex(b), Hex(b[1..]));
      Rejoin(b);
    }
  }

  lemma Rejoin(b: seq<byte>)
    requires b != []
    ensures [b[0]] + b[1..] == b
  {
  }

  lemma NoComma(s: string)
    requires IsHex(s)
    ensures ',' !in s
  {
  }

  /** A single well-formed part. */
  lemma {:induction false} OneID(id: GroupID, more: seq<string>)
    ensures var h := Hex(id); ',' !in h && IDs([h] + more) == Before([id], IDs(more))
  {
    HexUndone(id);
    NoComma(Hex(id));
    assert ([Hex(id)] + more)[1..] == more;
  }

  /** ParseGroupIDs undoes comma-joined lower-case hex printing. */
  lemma {:induction false} JoinUndone(ids: seq<GroupID>)
    requires ids != []
    ensures IDs(Parts(JoinIDs(ids))) == Ok(ids)
  {
    hide Hex;
    hide Parts;
    var h := Hex(ids[0]);
    if |ids| == 1 {
      OneID(ids[0], []);
      PartsOfPlain(h);
      assert [h] + [] == [h] && [ids[0]] + [] == ids;
    } else {
      var rest := Parts(JoinIDs(ids[1..]));
      OneID(ids[0], rest);
      JoinUndone(ids[1..]);
      PartsAtComma(h, JoinIDs(ids[1..]));
      assert ids == [ids[0]] + ids[1..];
    }
  }

  // ---------------------------------------------------------------- the phase ramp

  /** Go's conversion to int32. */
  function Int32(x: int): int {
    (x + 0x8000_0000) % 0x1_0000_0000 - 0x8000_0000
  }

  /** Lines 97-102: one tick of the phase goroutine, in int32 arithmetic. */
  function Tick(cur: int, phaseSize: int, poolLen: nat): int {
    var next := Int32(cur + Int32(phaseSize));
    if next > Int32(poolLen) then Int32(poolLen) else next
  }

  function Active(phaseSize: int, poolLen: nat, ticks: nat): int {
    if ticks == 0 then 0 else Tick(Active(phaseSize, poolLen, ticks - 1), phaseSize, poolLen)
  }

  function Min(a: int, b: int): int {
    if a <= b then a else b
  }

  /** One tick where nothing overflows. */
  lemma TickAdds(cur: int, phaseSize: int, poolLen: nat)
    requires 0 <= cur <= poolLen && phaseSize > 0 && phaseSize + poolLen < 0x8000_0000
    ensures Tick(cur, phaseSize, poolLen) == Min(cur + phaseSize, poolLen)
  {
  }

  lemma {:induction false} Times(k: nat, n: int)
    ensures (k + 1) * n == k * n + n
    ensures n > 0 ==> k <= k * n
  {
    if n > 0 {
      assert k * n == k + k * (n - 1);
    }
  }

  lemma {:induction false} RampWithoutOverflow(phaseSize: int, poolLen: nat, ticks: nat)
    requires phaseSize > 0 && phaseSize + poolLen < 0x8000_0000
    ensures Active(phaseSize, poolLen, ticks) == Min(ticks * phaseSize, poolLen)
  {
    if ticks > 0 {
      hide Tick;
      RampWithoutOverflow(phaseSize, poolLen, ticks - 1);
      Times(ticks - 1, phaseSize);
      TickAdds(Active(phaseSize, poolLen, ticks - 1), phaseSize, poolLen);
    }
  }

  ghost predicate RampedTo(phaseSize: int, poolLen: nat, ticks: nat) {
    Active(phaseSize, poolLen, ticks) == Min(ticks * phaseSize, poolLen)
  }

  /** PhaseSize and the pool length stay apart from 2^31, and a PhaseSize that int32 cuts short still reaches
      past the whole pool in one tick. */
  predicate RampSafe(phaseSize: int, poolLen: nat) {
    && Int32(phaseSize) + poolLen < 0x8000_0000
    && (phaseSize == Int32(phaseSize) || poolLen <= Int32(phaseSize))
  }

  lemma Int32Range(x: int)
    ensures -0x8000_0000 <= Int32(x) < 0x8000_0000 && (x - Int32(x)) % 0x1_0000_0000 == 0
    ensures -0x8000_0000 <= x < 0x8000_0000 ==> Int32(x) == x
  {
  }

  /** A truncated PhaseSize that reaches past the pool activates all of it at once, and it stays so. */
  lemma {:induction false} RampAtOnce(phaseSize: int, poolLen: nat, ticks: nat)
    requires phaseSize >= 0x8000_0000 && 0 <= poolLen <= Int32(phaseSize) && Int32(phaseSize) + poolLen < 0x8000_0000
    ensures Active(phaseSize, poolLen, ticks) == if ticks == 0 then 0 else poolLen
    ensures RampedTo(phaseSize, poolLen, ticks)
  {
    hide Tick;
    hide Int32;
    if ticks > 0 {
      RampAtOnce(phaseSize, poolLen, ticks - 1);
      TickFills(if ticks == 1 then 0 else poolLen, phaseSize, poolLen);
      Times(ticks - 1, phaseSize);
    }
  }

  lemma TickFills(cur: int, phaseSize: int, poolLen: nat)
    requires poolLen <= Int32(phaseSize) && Int32(phaseSize) + poolLen < 0x8000_0000 && (cur == 0 || cur == poolLen)
    ensures Tick(cur, phaseSize, poolLen) == poolLen
  {
  }

  /** Otherwise the first tick, or the one that finds the whole pool active, goes wrong. */
  lemma {:induction false} RampBreaks(phaseSize: int, poolLen: nat)
    requires phaseSize > 0 && !RampSafe(phaseSize, poolLen)
    ensures exists ticks: nat :: !RampedTo(phaseSize, poolLen, ticks)
  {
    Times(0, phaseSize);
    Times(poolLen, phaseSize);
    if RampedTo(phaseSize, poolLen, 1) && RampedTo(phaseSize, poolLen, poolLen) {
      TickRange(Active(phaseSize, poolLen, if poolLen > 0 then poolLen - 1 else 0), phaseSize, poolLen);
      Int32Range(phaseSize);
      assert poolLen < 0x8000_0000;
      assert Active(phaseSize, poolLen, 1) == Tick(0, phaseSize, poolLen);
      assert !RampedTo(phaseSize, poolLen, poolLen + 1);
    }
  }

  lemma TickRange(cur: int, phaseSize: int, poolLen: nat)
    ensures -0x8000_0000 <= Tick(cur, phaseSize, poolLen) < 0x8000_0000
  {
  }

  /** The documented ramp of min(ticks * PhaseSize, pool) active subtrees is what the int32 arithmetic gives
      at every tick exactly when PhaseSize and pool length pass this test, whatever their values. */
  lemma {:induction false} RampExactly(phaseSize: int, poolLen: nat)
    requires phaseSize > 0
    ensures (forall ticks: nat :: RampedTo(phaseSize, poolLen, ticks)) <==> RampSafe(phaseSize, poolLen)
  {
    if RampSafe(phaseSize, poolLen) {
      Int32Range(phaseSize);
      forall ticks: nat
        ensures RampedTo(phaseSize, poolLen, ticks)
      {
        if phaseSize < 0x8000_0000 {
          RampWithoutOverflow(phaseSize, poolLen, ticks);
        } else {
          RampAtOnce(phaseSize, poolLen, ticks);
        }
      }
    } else {
      RampBreaks(phaseSize, poolLen);
    }
  }
}
