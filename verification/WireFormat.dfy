/** A small language of self-delimiting byte formats, with one walker and one printer
    for all of them.  The three object classes of the push lanes are formats (ObjFmt). */
module WireFormat {
  import opened Bytes

  /** How a count or a length is written. */
  datatype Kind = Compact | Be8

  datatype Format =
    | Fixed(width: nat)
    | Literal(bytes: seq<byte>)
    | Blob(len: Kind)
    | Many(count: Kind, item: Format)
    | Then(first: Format, second: Format)
    | IfZero(zero: Format, nonzero: Format)

  datatype Value =
    | Raw(bytes: seq<byte>)
    | List(items: seq<Value>)
    | Pair(fst: Value, snd: Value)
    | OnZero(v: Value)
    | OnNonzero(v: Value)

  /** Short: the bytes end inside the object.  Bad: no continuation can make it one. */
  datatype Parsed<+T> = Got(value: T, n: nat) | Short | Bad {
    predicate IsFailure() { !Got? }
    function PropagateFailure<U>(): Parsed<U> requires !Got? { if Short? then Short else Bad }
    function Extract(): (T, nat) requires Got? { (value, n) }
  }

  // ---------------------------------------------------------------- counts

  /** The canonical Bitcoin CompactSize encoding. */
  function CompactSize(v: nat): (s: seq<byte>)
    ensures |s| > 0
  {
    if v < 0xFD then [v]
    else if v <= 0xFFFF then [0xFD] + Le(v, 2)
    else if v <= 0xFFFFFFFF then [0xFE] + Le(v, 4)
    else [0xFF] + Le(v, 8)
  }

  function PrintCount(k: Kind, v: nat): (s: seq<byte>)
    ensures |s| > 0
  {
    if k.Compact? then CompactSize(v) else Be(v, 8)
  }

  /** A CompactSize body of `width` bytes, refused below the first value that needs that width. */
  function ParseWide(s: seq<byte>, width: nat, least: nat): Parsed<nat> {
    if |s| < 1 + width then Short
    else if FromLe(s[1..1 + width]) < least then Bad
    else Got(FromLe(s[1..1 + width]), 1 + width)
  }

  function ParseCount(k: Kind, s: seq<byte>): (r: Parsed<nat>)
    ensures r.Got? ==> 0 < r.n <= |s|
  {
    match k
    case Be8 => if |s| < 8 then Short else Got(FromBe(s[..8]), 8)
    case Compact =>
      if s == [] then Short
      else if s[0] < 0xFD then Got(s[0], 1)
      else if s[0] == 0xFD then ParseWide(s, 2, 0xFD)
      else if s[0] == 0xFE then ParseWide(s, 4, 0x1_0000)
      else ParseWide(s, 8, U32)
  }

  lemma {:induction false} CountPrintParse(k: Kind, v: nat, rest: seq<byte>)
    requires v < U64
    ensures ParseCount(k, PrintCount(k, v) + rest) == Got(v, |PrintCount(k, v)|)
  {
    Widths();
    var s := PrintCount(k, v) + rest;
    if k == Be8 {
      BeUndone(v, 8);
      assert s[..8] == Be(v, 8);
    } else if v < 0xFD {
    } else {
      var w := if v <= 0xFFFF then 2 else if v <= 0xFFFFFFFF then 4 else 8;
      LeUndone(v, w);
      assert s[1..1 + w] == Le(v, w);
    }
  }

  lemma {:induction false} CountParsePrint(k: Kind, s: seq<byte>)
    ensures var r := ParseCount(k, s); r.Got? ==> r.value < U64 && PrintCount(k, r.value) == s[..r.n]
  {
    Widths();
    if k == Be8 {
      if |s| >= 8 {
        FromBeUndone(s[..8]);
      }
    } else if s != [] && s[0] >= 0xFD {
      var w := if s[0] == 0xFD then 2 else if s[0] == 0xFE then 4 else 8;
      if |s| >= 1 + w {
        FromLeUndone(s[1..1 + w]);
        assert s[..1 + w] == [s[0]] + s[1..1 + w];
      }
    }
  }

  lemma {:induction false} CountStable(k: Kind, s: seq<byte>, s': seq<byte>)
    requires s <= s'
    ensures ParseCount(k, s) != Short ==> ParseCount(k, s') == ParseCount(k, s)
  {
    if k == Be8 {
      if |s| >= 8 { assert s'[..8] == s[..8]; }
    } else if s != [] && s[0] >= 0xFD {
      var w := if s[0] == 0xFD then 2 else if s[0] == 0xFE then 4 else 8;
      if |s| >= 1 + w { assert s'[1..1 + w] == s[1..1 + w]; }
    }
  }

  // ---------------------------------------------------------------- walker and printer

  /** Walks one object of format f at the front of s. */
  function Parse(f: Format, s: seq<byte>): (r: Parsed<Value>)
    ensures r.Got? ==> r.n <= |s|
    decreases f, 0
  {
    match f
    case Fixed(width) => if |s| < width then Short else Got(Raw(s[..width]), width)
    case Literal(b) => if |s| < |b| then Short else if s[..|b|] == b then Got(Raw(b), |b|) else Bad
    case Blob(k) =>
      var (len, n) :- ParseCount(k, s);
      if |s| < n + len then Short else Got(Raw(s[n..n + len]), n + len)
    case Many(k, item) =>
      var (count, n) :- ParseCount(k, s);
      var (vs, m) :- ParseMany(item, count, s[n..]);
      Got(List(vs), n + m)
    case Then(a, b) =>
      var (u, n) :- Parse(a, s);
      var (w, m) :- Parse(b, s[n..]);
      Got(Pair(u, w), n + m)
    case IfZero(z, nz) =>
      if s == [] then Short
      else if s[0] == 0 then var (v, n) :- Parse(z, s); Got(OnZero(v), n)
      else var (v, n) :- Parse(nz, s); Got(OnNonzero(v), n)
  }

  function ParseMany(f: Format, count: nat, s: seq<byte>): (r: Parsed<seq<Value>>)
    ensures r.Got? ==> r.n <= |s| && |r.value| == count
    decreases f, count + 1
  {
    if count == 0 then Got([], 0)
    else
      var (v, n) :- Parse(f, s);
      var (vs, m) :- ParseMany(f, count - 1, s[n..]);
      Got([v] + vs, n + m)
  }

  function Print(f: Format, v: Value): seq<byte>
    decreases f, 0
  {
    match (f, v)
    case (Fixed(_), Raw(b)) => b
    case (Literal(_), Raw(b)) => b
    case (Blob(k), Raw(b)) => PrintCount(k, |b|) + b
    case (Many(k, item), List(vs)) => PrintCount(k, |vs|) + PrintMany(item, vs)
    case (Then(a, b), Pair(u, w)) => Print(a, u) + Print(b, w)
    case (IfZero(z, _), OnZero(u)) => Print(z, u)
    case (IfZero(_, nz), OnNonzero(u)) => Print(nz, u)
    case _ => []
  }

  function PrintMany(f: Format, vs: seq<Value>): seq<byte>
    decreases f, |vs| + 1
  {
    if vs == [] then [] else Print(f, vs[0]) + PrintMany(f, vs[1..])
  }

  /** v is a value of format f: widths, literals and counts are as the format says. */
  ghost predicate Fits(f: Format, v: Value)
    decreases f, 0
  {
    match f
    case Fixed(width) => v.Raw? && |v.bytes| == width
    case Literal(b) => v == Raw(b)
    case Blob(_) => v.Raw? && |v.bytes| < U64
    case Many(_, item) => v.List? && |v.items| < U64 && FitAll(item, v.items)
    case Then(a, b) => v.Pair? && Fits(a, v.fst) && Fits(b, v.snd)
    case IfZero(z, nz) =>
      || (v.OnZero? && Fits(z, v.v) && Print(z, v.v) != [] && Print(z, v.v)[0] == 0)
      || (v.OnNonzero? && Fits(nz, v.v) && Print(nz, v.v) != [] && Print(nz, v.v)[0] != 0)
  }

  ghost predicate FitAll(f: Format, vs: seq<Value>)
    decreases f, 1
  {
    forall i :: 0 <= i < |vs| ==> Fits(f, vs[i])
  }

  /** A lower bound on the size of an object. */
  function MinSize(f: Format): nat {
    match f
    case Fixed(width) => width
    case Literal(b) => |b|
    case Blob(k) => if k == Be8 then 8 else 1
    case Many(k, _) => if k == Be8 then 8 else 1
    case Then(a, b) => MinSize(a) + MinSize(b)
    case IfZero(z, nz) => if MinSize(z) <= MinSize(nz) then MinSize(z) else MinSize(nz)
  }

  lemma {:induction false} AtLeastMinSize(f: Format, s: seq<byte>)
    ensures Parse(f, s).Got? ==> Parse(f, s).n >= MinSize(f)
  {
    match f
    case Then(a, b) =>
      AtLeastMinSize(a, s);
      if Parse(a, s).Got? { AtLeastMinSize(b, s[Parse(a, s).n..]); }
    case IfZero(z, nz) =>
      AtLeastMinSize(z, s);
      AtLeastMinSize(nz, s);
    case _ =>
  }

  /** Both branches of every IfZero start with at least one byte, the one it looks at. */
  predicate Usable(f: Format) {
    match f
    case Many(_, item) => Usable(item)
    case Then(a, b) => Usable(a) && Usable(b)
    case IfZero(z, nz) => Usable(z) && Usable(nz) && MinSize(z) > 0 && MinSize(nz) > 0
    case _ => true
  }

  // ---------------------------------------------------------------- they undo each other

  lemma PrependAppend<T>(vs: seq<T>, ws: seq<T>)
    requires vs != []
    ensures [vs[0]] + (vs[1..] + ws) == vs + ws
  {
  }

  /** A printed count in front of a printed body is read back, and the body starts right after it. */
  lemma {:induction false} PrintParseCounted(k: Kind, count: nat, body: seq<byte>, rest: seq<byte>)
    requires count < U64
    ensures var c, s := PrintCount(k, count), PrintCount(k, count) + body + rest;
            ParseCount(k, s) == Got(count, |c|) && s[|c|..] == body + rest
  {
    var c := PrintCount(k, count);
    CountPrintParse(k, count, body + rest);
    assert c + body + rest == c + (body + rest);
  }

  lemma {:induction false} PrintParse(f: Format, v: Value, rest: seq<byte>)
    requires Fits(f, v)
    ensures Parse(f, Print(f, v) + rest) == Got(v, |Print(f, v)|)
    decreases f, 0
  {
    var s := Print(f, v) + rest;
    match f
    case Fixed(_) =>
    case Literal(_) =>
    case Blob(k) =>
      PrintParseCounted(k, |v.bytes|, v.bytes, rest);
      var c := PrintCount(k, |v.bytes|);
      assert s[|c|..|c| + |v.bytes|] == s[|c|..][..|v.bytes|] == v.bytes;
    case Many(k, item) =>
      PrintParseCounted(k, |v.items|, PrintMany(item, v.items), rest);
      PrintParseMany(item, v.items, rest);
    case Then(a, b) =>
      var x, y := Print(a, v.fst), Print(b, v.snd);
      assert s == x + (y + rest);
      PrintParse(a, v.fst, y + rest);
      assert s[|x|..] == y + rest;
      PrintParse(b, v.snd, rest);
    case IfZero(z, nz) =>
      if v.OnZero? { PrintParse(z, v.v, rest); } else { PrintParse(nz, v.v, rest); }
  }

  lemma {:induction false} PrintManyStep(f: Format, vs: seq<Value>)
    requires vs != [] && FitAll(f, vs)
    ensures PrintMany(f, vs) == Print(f, vs[0]) + PrintMany(f, vs[1..])
    ensures Fits(f, vs[0]) && FitAll(f, vs[1..])
  {
    hide Print;
    hide Fits;
  }

  lemma {:induction false} PrintParseMany(f: Format, vs: seq<Value>, rest: seq<byte>)
    requires FitAll(f, vs)
    ensures ParseMany(f, |vs|, PrintMany(f, vs) + rest) == Got(vs, |PrintMany(f, vs)|)
    decreases f, |vs| + 1
  {
    hide Parse;
    hide Print;
    hide Fits;
    if vs != [] {
      PrintManyStep(f, vs);
      hide PrintMany;
      hide FitAll;
      var x, y := Print(f, vs[0]), PrintMany(f, vs[1..]);
      PrintParse(f, vs[0], y + rest);
      PrintParseMany(f, vs[1..], rest);
      ParseManyStep(f, |vs|, x + y + rest);
      hide ParseMany;
      Rest(x, y, rest);
      assert [vs[0]] + vs[1..] == vs;
    }
  }

  lemma Rest(x: seq<byte>, y: seq<byte>, rest: seq<byte>)
    ensures x + y + rest == x + (y + rest)
    ensures (x + y + rest)[|x|..] == y + rest
  {
  }

  lemma Cut(s: seq<byte>, n: nat, m: nat)
    requires n + m <= |s|
    ensures s[..n + m] == s[..n] + s[n..][..m] == s[..n] + s[n..n + m]
  {
  }

  lemma {:induction false} ParsePrint(f: Format, s: seq<byte>)
    requires Usable(f) && Parse(f, s).Got?
    ensures Fits(f, Parse(f, s).value) && Print(f, Parse(f, s).value) == s[..Parse(f, s).n]
    decreases f, 0
  {
    match f
    case Fixed(_) =>
    case Literal(_) =>
    case Blob(k) =>
      CountParsePrint(k, s);
      var c := ParseCount(k, s);
      Cut(s, c.n, c.value);
    case Many(k, item) =>
      CountParsePrint(k, s);
      var c := ParseCount(k, s);
      ParsePrintMany(item, c.value, s[c.n..]);
      Cut(s, c.n, ParseMany(item, c.value, s[c.n..]).n);
    case Then(a, b) =>
      ParsePrint(a, s);
      var p := Parse(a, s);
      ParsePrint(b, s[p.n..]);
      Cut(s, p.n, Parse(b, s[p.n..]).n);
    case IfZero(z, nz) =>
      var g := if s[0] == 0 then z else nz;
      ParsePrint(g, s);
      AtLeastMinSize(g, s);
  }

  lemma {:induction false} PrintManyCons(f: Format, v: Value, vs: seq<Value>)
    ensures PrintMany(f, [v] + vs) == Print(f, v) + PrintMany(f, vs)
    ensures Fits(f, v) && FitAll(f, vs) ==> FitAll(f, [v] + vs)
  {
    assert ([v] + vs)[1..] == vs;
  }

  /** One step of a counted list. */
  lemma {:induction false} ParseManyStep(f: Format, count: nat, s: seq<byte>)
    requires count > 0
    ensures var p, all := Parse(f, s), ParseMany(f, count, s);
            && (p.Short? ==> all == Short) && (p.Bad? ==> all == Bad)
            && (p.Got? ==>
                  var q := ParseMany(f, count - 1, s[p.n..]);
                  && (q.Short? ==> all == Short) && (q.Bad? ==> all == Bad)
                  && (q.Got? ==> all == Got([p.value] + q.value, p.n + q.n)))
  {
    hide Parse;
  }

  lemma {:induction false} ParsePrintMany(f: Format, count: nat, s: seq<byte>)
    requires Usable(f) && ParseMany(f, count, s).Got?
    ensures var r := ParseMany(f, count, s); FitAll(f, r.value) && PrintMany(f, r.value) == s[..r.n]
    decreases f, count + 1
  {
    hide Parse;
    hide Print;
    hide Fits;
    if count > 0 {
      ParseManyStep(f, count, s);
      hide ParseMany;
      hide PrintMany;
      ParsePrint(f, s);
      var p := Parse(f, s);
      ParsePrintMany(f, count - 1, s[p.n..]);
      var q := ParseMany(f, count - 1, s[p.n..]);
      PrintManyCons(f, p.value, q.value);
      Cut(s, p.n, q.n);
    }
  }

  // ---------------------------------------------------------------- prefix stability

  /** A verdict, once reached, is the verdict on every extension of the bytes. */
  lemma {:induction false} Stable(f: Format, s: seq<byte>, s': seq<byte>)
    requires s <= s'
    ensures Parse(f, s) != Short ==> Parse(f, s') == Parse(f, s)
    decreases f, 0
  {
    if Parse(f, s) != Short {
      match f
      case Fixed(width) => assert s'[..width] == s[..width];
      case Literal(b) => assert s'[..|b|] == s[..|b|];
      case Blob(k) =>
        CountStable(k, s, s');
        var c := ParseCount(k, s);
        if c.Got? { assert s'[c.n..c.n + c.value] == s[c.n..c.n + c.value]; }
      case Many(k, item) =>
        CountStable(k, s, s');
        var c := ParseCount(k, s);
        if c.Got? { StableMany(item, c.value, s[c.n..], s'[c.n..]); }
      case Then(a, b) =>
        Stable(a, s, s');
        var p := Parse(a, s);
        if p.Got? { Stable(b, s[p.n..], s'[p.n..]); }
      case IfZero(z, nz) =>
        Stable(z, s, s');
        Stable(nz, s, s');
    }
  }

  lemma {:induction false} StableMany(f: Format, count: nat, s: seq<byte>, s': seq<byte>)
    requires s <= s'
    ensures ParseMany(f, count, s) != Short ==> ParseMany(f, count, s') == ParseMany(f, count, s)
    decreases f, count + 1
  {
    hide Parse;
    if count > 0 {
      ParseManyStep(f, count, s);
      ParseManyStep(f, count, s');
      hide ParseMany;
      Stable(f, s, s');
      var p := Parse(f, s);
      if p.Got? { StableMany(f, count - 1, s[p.n..], s'[p.n..]); }
    }
  }

  /** Every proper prefix of an object is Short: neither accepted early nor condemned. */
  lemma {:induction false} ProperPrefixShort(f: Format, v: Value, k: nat)
    requires Fits(f, v) && k < |Print(f, v)|
    ensures Parse(f, Print(f, v)[..k]) == Short
  {
    hide Parse;
    hide Print;
    hide Fits;
    var s := Print(f, v);
    PrintParse(f, v, []);
    assert s + [] == s;
    Stable(f, s[..k], s);
  }

  /** No format condemns a stream before its first byte. */
  lemma {:induction false} EmptyShort(f: Format)
    ensures !Parse(f, []).Bad?
  {
    match f
    case Then(a, b) =>
      EmptyShort(a);
      EmptyShort(b);
    case IfZero(z, nz) =>
      EmptyShort(z);
      EmptyShort(nz);
    case _ =>
  }

  // ---------------------------------------------------------------- undecided no longer than needed

  lemma CountDecides(k: Kind, s: seq<byte>)
    requires |s| >= 9
    ensures ParseCount(k, s) != Short
  {
  }

  /** No bytes stay undecided for good: some extension is accepted or condemned. */
  lemma {:induction false} Decides(f: Format, s: seq<byte>) returns (t: seq<byte>)
    ensures Parse(f, s + t) != Short
    decreases f, 0
  {
    match f
    case Fixed(width) =>
      t := Fill(0, width);
    case Literal(b) =>
      t := b;
    case Blob(k) =>
      t := Fill(0, 9);
      CountDecides(k, s + t);
      var c := ParseCount(k, s + t);
      if c.Got? {
        var body := Fill(0, c.value);
        CountStable(k, s + t, s + (t + body));
        t := t + body;
      }
    case Many(k, item) =>
      t := Fill(0, 9);
      CountDecides(k, s + t);
      var c := ParseCount(k, s + t);
      if c.Got? {
        var body := DecidesMany(item, c.value, (s + t)[c.n..]);
        CountStable(k, s + t, s + (t + body));
        assert (s + (t + body))[c.n..] == (s + t)[c.n..] + body;
        t := t + body;
      }
    case Then(a, b) =>
      t := Decides(a, s);
      var p := Parse(a, s + t);
      if p.Got? {
        var more := Decides(b, (s + t)[p.n..]);
        Stable(a, s + t, s + (t + more));
        assert (s + (t + more))[p.n..] == (s + t)[p.n..] + more;
        t := t + more;
      }
    case IfZero(z, nz) =>
      var first: seq<byte> := if s == [] then [0] else [];
      var s' := s + first;
      var more := Decides(if s'[0] == 0 then z else nz, s');
      t := first + more;
      assert s + t == s' + more;
  }

  lemma {:induction false} DecidesMany(f: Format, count: nat, s: seq<byte>) returns (t: seq<byte>)
    ensures ParseMany(f, count, s + t) != Short
    decreases f, count + 1
  {
    hide Parse;
    t := [];
    if count > 0 {
      t := Decides(f, s);
      var p := Parse(f, s + t);
      ParseManyStep(f, count, s + t);
      if p.Got? {
        var more := DecidesMany(f, count - 1, (s + t)[p.n..]);
        Stable(f, s + t, s + (t + more));
        ParseManyStep(f, count, s + (t + more));
        assert (s + (t + more))[p.n..] == (s + t)[p.n..] + more;
        t := t + more;
      }
    }
  }

  /** The bytes of a CompactSize: its own value below 0xFD, else a marker for the width and the value. */
  lemma {:induction false} CompactSizeBytes(v: nat)
    requires v < U64
    ensures var s := CompactSize(v);
            && (v <= 0xFC ==> s == [v])
            && (0xFD <= v <= 0xFFFF ==> |s| == 3 && s[0] == 0xFD && FromLe(s[1..]) == v)
            && (0x1_0000 <= v <= 0xFFFF_FFFF ==> |s| == 5 && s[0] == 0xFE && FromLe(s[1..]) == v)
            && (0x1_0000_0000 <= v ==> |s| == 9 && s[0] == 0xFF && FromLe(s[1..]) == v)
  {
    Widths();
    if v > 0xFC {
      var w := if v <= 0xFFFF then 2 else if v <= 0xFFFFFFFF then 4 else 8;
      LeUndone(v, w);
      assert CompactSize(v)[1..] == Le(v, w);
    }
  }

  lemma {:induction false} FromLeCons(s: seq<byte>)
    requires s != []
    ensures FromLe(s) == s[0] + 256 * FromLe(s[1..])
  {
  }

  /** Little-endian numbers with a zero upper half. */
  lemma {:induction false} SmallFromLe(s: seq<byte>, k: nat)
    requires k <= |s|
    ensures FromLe(s) < Pow256(k) <==> forall i :: k <= i < |s| ==> s[i] == 0
  {
    FromLeUndone(s);
    if k == 0 {
      ZeroFromLe(s);
    } else {
      SmallFromLe(s[1..], k - 1);
      assert forall i :: k <= i < |s| ==> s[i] == s[1..][i - 1];
      assert forall i :: k - 1 <= i < |s[1..]| ==> s[1..][i] == s[i + 1];
    }
  }

  lemma {:induction false} ZeroFromLe(s: seq<byte>)
    ensures FromLe(s) == 0 <==> forall i :: 0 <= i < |s| ==> s[i] == 0
  {
    if s != [] {
      ZeroFromLe(s[1..]);
      assert forall i :: 1 <= i < |s| ==> s[i] == s[1..][i - 1];
    }
  }

  /** A CompactSize is condemned exactly when a shorter one would do. */
  lemma {:induction false} CountBadExactly(s: seq<byte>)
    ensures ParseCount(Compact, s).Bad? <==>
              || (|s| >= 3 && s[0] == 0xFD && s[1] <= 0xFC && s[2] == 0)
              || (|s| >= 5 && s[0] == 0xFE && s[3] == 0 && s[4] == 0)
              || (|s| >= 9 && s[0] == 0xFF && s[5] == 0 && s[6] == 0 && s[7] == 0 && s[8] == 0)
  {
    Widths();
    if s != [] && s[0] == 0xFD && |s| >= 3 {
      FromLeCons(s[1..3]);
      FromLeCons(s[2..3]);
      assert s[1..3][1..] == s[2..3] && s[2..3][1..] == [];
    } else if s != [] && s[0] == 0xFE && |s| >= 5 {
      SmallFromLe(s[1..5], 2);
      assert s[1..5][2] == s[3] && s[1..5][3] == s[4];
    } else if s != [] && s[0] == 0xFF && |s| >= 9 {
      SmallFromLe(s[1..9], 4);
      assert s[1..9][4] == s[5] && s[1..9][5] == s[6] && s[1..9][6] == s[7] && s[1..9][7] == s[8];
    }
  }

  // ---------------------------------------------------------------- streams of objects

  /** The whole objects at the front of a buffer, and what is left when the walk stops. */
  datatype Walk = Walk(values: seq<Value>, tail: seq<byte>, bad: bool)

  function WalkAll(f: Format, s: seq<byte>): Walk
    requires MinSize(f) > 0
    decreases |s|
  {
    if s == [] then Walk([], [], false)
    else
      match Parse(f, s)
      case Short => Walk([], s, false)
      case Bad => Walk([], s, true)
      case Got(v, n) =>
        AtLeastMinSize(f, s);
        var w := WalkAll(f, s[n..]);
        Walk([v] + w.values, w.tail, w.bad)
  }

  lemma NothingWalked(f: Format)
    requires MinSize(f) > 0
    ensures WalkAll(f, []) == Walk([], [], false)
  {
  }

  /** One step of the walk. */
  lemma {:induction false} WalkStep(f: Format, s: seq<byte>)
    requires MinSize(f) > 0 && s != []
    ensures Parse(f, s).Short? ==> WalkAll(f, s) == Walk([], s, false)
    ensures Parse(f, s).Bad? ==> WalkAll(f, s) == Walk([], s, true)
    ensures Parse(f, s).Got? ==>
              && Parse(f, s).n > 0
              && var w := WalkAll(f, s[Parse(f, s).n..]);
                 WalkAll(f, s) == Walk([Parse(f, s).value] + w.values, w.tail, w.bad)
  {
    AtLeastMinSize(f, s);
  }

  /** The objects walked and the tail are the buffer, and the tail holds no further object. */
  lemma {:induction false} WalkSound(f: Format, s: seq<byte>)
    requires Usable(f) && MinSize(f) > 0
    ensures var w := WalkAll(f, s);
            && FitAll(f, w.values)
            && PrintMany(f, w.values) + w.tail == s
            && (w.tail == [] || Parse(f, w.tail) == if w.bad then Bad else Short)
    decreases |s|
  {
    if s == [] {
    } else if Parse(f, s).Got? {
      hide WalkAll;
      var n := Parse(f, s).n;
      WalkStep(f, s);
      ParsePrint(f, s);
      WalkSound(f, s[n..]);
      var w := WalkAll(f, s[n..]);
      PrintManyCons(f, Parse(f, s).value, w.values);
      Regroup(s, n, s[..n], PrintMany(f, w.values), w.tail);
    }
  }

  lemma {:induction false} PrintManyFirst(f: Format, vs: seq<Value>, rest: seq<byte>)
    requires vs != []
    ensures PrintMany(f, vs) + rest == Print(f, vs[0]) + (PrintMany(f, vs[1..]) + rest)
  {
    hide Print;
    Assoc(Print(f, vs[0]), PrintMany(f, vs[1..]), rest);
  }

  /** A printed stream, whatever follows it, is split into exactly the values it was printed from. */
  lemma {:induction false} WalkSplits(f: Format, vs: seq<Value>, rest: seq<byte>)
    requires MinSize(f) > 0 && FitAll(f, vs)
    ensures var w := WalkAll(f, rest);
            WalkAll(f, PrintMany(f, vs) + rest) == Walk(vs + w.values, w.tail, w.bad)
    decreases |vs|
  {
    hide WalkAll;
    hide Parse;
    hide Print;
    hide Fits;
    if vs == [] {
      assert PrintMany(f, vs) + rest == rest;
    } else {
      PrintManyFirst(f, vs, rest);
      hide PrintMany;
      var x, y := Print(f, vs[0]), PrintMany(f, vs[1..]) + rest;
      PrintParse(f, vs[0], y);
      AtLeastMinSize(f, x + y);
      WalkStep(f, x + y);
      assert (x + y)[|x|..] == y;
      WalkSplits(f, vs[1..], rest);
      PrependAppend(vs, WalkAll(f, rest).values);
    }
  }

  lemma PrefixCons<T>(x: T, a: seq<T>, b: seq<T>)
    requires a <= b
    ensures [x] + a <= [x] + b
  {
  }

  /** More bytes only add objects, and a walk that met a bad object stays where it was. */
  lemma {:induction false} WalkGrows(f: Format, s: seq<byte>, s': seq<byte>)
    requires MinSize(f) > 0 && s <= s'
    ensures WalkAll(f, s).values <= WalkAll(f, s').values
    ensures WalkAll(f, s).bad ==> WalkAll(f, s').bad && WalkAll(f, s').values == WalkAll(f, s).values
    decreases |s|
  {
    if s != [] {
      hide WalkAll;
      hide Parse;
      Stable(f, s, s');
      WalkStep(f, s);
      WalkStep(f, s');
      if Parse(f, s).Got? {
        var n := Parse(f, s).n;
        WalkGrows(f, s[n..], s'[n..]);
        PrefixCons(Parse(f, s).value, WalkAll(f, s[n..]).values, WalkAll(f, s'[n..]).values);
      }
    }
  }

  /** Cut a printed stream anywhere: the walk meets nothing bad and finds a prefix of its objects. */
  lemma {:induction false} WalkOfPrefix(f: Format, vs: seq<Value>, k: nat)
    requires MinSize(f) > 0 && FitAll(f, vs) && k <= |PrintMany(f, vs)|
    ensures var w := WalkAll(f, PrintMany(f, vs)[..k]); !w.bad && w.values <= vs
  {
    hide PrintMany;
    var s := PrintMany(f, vs);
    WalkSplits(f, vs, []);
    assert s + [] == s && vs + [] == vs;
    hide WalkAll;
    WalkGrows(f, s[..k], s);
  }

  /** ... and what it leaves over is shorter than the next object. */
  lemma {:induction false} WalkOfPrefixTail(f: Format, vs: seq<Value>, k: nat)
    requires Usable(f) && MinSize(f) > 0 && FitAll(f, vs) && k <= |PrintMany(f, vs)|
    ensures var w, s := WalkAll(f, PrintMany(f, vs)[..k]), PrintMany(f, vs);
            && |w.values| <= |vs|
            && (|w.values| < |vs| ==> |w.tail| < |Print(f, vs[|w.values|])|)
            && (|w.values| == |vs| ==> w.tail == [])
  {
    hide WalkAll;
    var s := PrintMany(f, vs);
    WalkOfPrefix(f, vs, k);
    WalkSound(f, s[..k]);
    var w := WalkAll(f, s[..k]);
    var i := |w.values|;
    assert vs == w.values + vs[i..];
    PrintManyAppend(f, w.values, vs[i..]);
    Remainder(PrintMany(f, w.values), w.tail, PrintMany(f, vs[i..]), s, k);
    if i < |vs| && |w.tail| >= |Print(f, vs[i])| {
      NoObjectInTail(f, vs[i], PrintMany(f, vs[i..]), w.tail);
      AtLeastMinSize(f, w.tail);
    }
  }

  lemma {:induction false} PrintOne(f: Format, v: Value)
    ensures PrintMany(f, [v]) == Print(f, v)
  {
    assert PrintMany(f, [v]) == Print(f, v) + PrintMany(f, []);
  }

  /** The walk of a prefix counts exactly the objects that end within it. */
  lemma {:induction false} WalkOfPrefixCount(f: Format, vs: seq<Value>, k: nat)
    requires Usable(f) && MinSize(f) > 0 && FitAll(f, vs) && k <= |PrintMany(f, vs)|
    ensures var n := |WalkAll(f, PrintMany(f, vs)[..k]).values|;
            && n <= |vs|
            && |PrintMany(f, vs[..n])| <= k
            && (n < |vs| ==> k < |PrintMany(f, vs[..n + 1])|)
  {
    hide WalkAll;
    hide PrintMany;
    hide Print;
    hide Parse;
    var buf := PrintMany(f, vs)[..k];
    WalkOfPrefix(f, vs, k);
    WalkOfPrefixTail(f, vs, k);
    WalkSound(f, buf);
    var w := WalkAll(f, buf);
    var n := |w.values|;
    assert w.values == vs[..n];
    assert |PrintMany(f, w.values)| + |w.tail| == k;
    if n < |vs| {
      PrintManyAppend(f, vs[..n], [vs[n]]);
      assert vs[..n + 1] == vs[..n] + [vs[n]];
      PrintOne(f, vs[n]);
    }
  }

  lemma {:induction false} Remainder(p: seq<byte>, t: seq<byte>, q: seq<byte>, s: seq<byte>, k: nat)
    requires k <= |s| && p + t == s[..k] && p + q == s
    ensures t <= q
  {
    assert t == s[|p|..k] && q == s[|p|..];
  }

  lemma {:induction false} NoObjectInTail(f: Format, v: Value, s: seq<byte>, tail: seq<byte>)
    requires Fits(f, v) && Print(f, v) <= s && tail <= s && |tail| >= |Print(f, v)|
    ensures Parse(f, tail).Got?
  {
    var x := Print(f, v);
    PrintParse(f, v, tail[|x|..]);
    assert tail == x + tail[|x|..];
  }

  lemma {:induction false} PrintManyAppend(f: Format, vs: seq<Value>, ws: seq<Value>)
    ensures PrintMany(f, vs + ws) == PrintMany(f, vs) + PrintMany(f, ws)
    decreases |vs|
  {
    if vs == [] {
      assert vs + ws == ws;
    } else {
      assert (vs + ws)[1..] == vs[1..] + ws;
      PrintManyAppend(f, vs[1..], ws);
    }
  }
}
