/** The class lane: what a reader of self-delimiting objects with a size limit gets out of a stream. */
module Objects {
  import opened Bytes
  import opened WireFormat

  /** Why a class stream ends; only RelayFailed is not the input's doing. */
  datatype End = CleanEof | CutMidObject | Malformed | TooLarge | RelayFailed

  datatype Next = Got(value: Value, n: nat) | Stop(end: End)

  function Front(s: seq<byte>, n: nat): seq<byte> {
    if |s| <= n then s else s[..n]
  }

  /** The reader looks at no more than maxObject bytes for one object. */
  function NextObject(f: Format, maxObject: nat, s: seq<byte>): (r: Next)
    ensures r.Got? ==> r.n <= |s| && r.n <= maxObject
    ensures r.Stop? ==> !r.end.RelayFailed?
  {
    match Parse(f, Front(s, maxObject))
    case Got(v, n) => Next.Got(v, n)
    case Bad => Stop(Malformed)
    case Short => Stop(if |s| > maxObject then TooLarge else if s == [] then CleanEof else CutMidObject)
  }

  /** A whole object comes out exactly when one starts here and is within the limit. */
  lemma {:induction false} NextExactly(f: Format, maxObject: nat, s: seq<byte>)
    requires Usable(f)
    ensures var r, p := NextObject(f, maxObject, s), Parse(f, s);
            && (r.Got? <==> p.Got? && p.n <= maxObject)
            && (r.Got? ==> r == Next.Got(p.value, p.n))
            && (r == Stop(Malformed) ==> p.Bad?)
            && (p.Got? && p.n > maxObject ==> r == Stop(TooLarge))
  {
    hide Parse;
    var front := Front(s, maxObject);
    Stable(f, front, s);
    if Parse(f, s).Got? {
      var v, n := Parse(f, s).value, Parse(f, s).n;
      ParsePrint(f, s);
      if n <= maxObject {
        PrintParse(f, v, front[n..]);
        assert front == s[..n] + front[n..];
      }
    }
  }

  datatype Lane = Lane(objects: seq<Value>, rest: seq<byte>, end: End)

  /** All objects a stream yields, what is left, and how the stream ends there. */
  function ObjectsOf(f: Format, maxObject: nat, s: seq<byte>): Lane
    requires MinSize(f) > 0
    decreases |s|
  {
    match NextObject(f, maxObject, s)
    case Stop(e) => Lane([], s, e)
    case Got(v, n) =>
      AtLeastMinSize(f, Front(s, maxObject));
      var r := ObjectsOf(f, maxObject, s[n..]);
      Lane([v] + r.objects, r.rest, r.end)
  }

  lemma {:induction false} ObjectStep(f: Format, maxObject: nat, s: seq<byte>)
    requires MinSize(f) > 0
    ensures var r, all := NextObject(f, maxObject, s), ObjectsOf(f, maxObject, s);
            && (r.Stop? ==> all == Lane([], s, r.end))
            && (r.Got? ==>
                  r.n > 0 && var more := ObjectsOf(f, maxObject, s[r.n..]);
                             all == Lane([r.value] + more.objects, more.rest, more.end))
  {
    AtLeastMinSize(f, Front(s, maxObject));
  }

  /** The objects before the first one over the limit. */
  function Within(f: Format, maxObject: nat, vs: seq<Value>): (ws: seq<Value>)
    ensures ws <= vs
  {
    if vs == [] || |Print(f, vs[0])| > maxObject then [] else [vs[0]] + Within(f, maxObject, vs[1..])
  }

  /** The lane yields exactly the whole objects of the stream up to the first over the limit. */
  lemma {:induction false} ObjectsExactly(f: Format, maxObject: nat, s: seq<byte>)
    requires Usable(f) && MinSize(f) > 0
    ensures var r, w := ObjectsOf(f, maxObject, s), WalkAll(f, s);
            && r.objects == Within(f, maxObject, w.values)
            && PrintMany(f, r.objects) + r.rest == s && NextObject(f, maxObject, r.rest) == Stop(r.end)
            && (|r.objects| < |w.values| ==> r.end == TooLarge)
    decreases |s|
  {
    NextExactly(f, maxObject, s);
    ObjectStep(f, maxObject, s);
    hide ObjectsOf;
    hide NextObject;
    if s == [] {
      NoneLeft(f, maxObject);
    } else {
      WalkStep(f, s);
      hide WalkAll;
      hide Parse;
      if Parse(f, s).Got? {
        ParsePrint(f, s);
        hide Print;
        var v, n := Parse(f, s).value, Parse(f, s).n;
        var w := WalkAll(f, s[n..]);
        FirstWithin(f, maxObject, v, w.values);
        if n <= maxObject {
          ObjectsExactly(f, maxObject, s[n..]);
          var r := ObjectsOf(f, maxObject, s[n..]);
          PrintManyCons(f, v, r.objects);
          Regroup(s, n, Print(f, v), PrintMany(f, r.objects), r.rest);
        }
      }
    }
  }

  lemma {:induction false} NoneLeft(f: Format, maxObject: nat)
    requires MinSize(f) > 0
    ensures WalkAll(f, []).values == [] && Within(f, maxObject, []) == [] && NextObject(f, maxObject, []).Stop?
    ensures PrintMany(f, []) == []
  {
    AtLeastMinSize(f, []);
  }

  lemma {:induction false} FirstWithin(f: Format, maxObject: nat, v: Value, vs: seq<Value>)
    ensures Within(f, maxObject, [v] + vs)
         == if |Print(f, v)| > maxObject then [] else [v] + Within(f, maxObject, vs)
  {
    hide Print;
    assert ([v] + vs)[1..] == vs;
  }

  lemma {:induction false} AllWithin(f: Format, maxObject: nat, vs: seq<Value>)
    requires forall i :: 0 <= i < |vs| ==> |Print(f, vs[i])| <= maxObject
    ensures Within(f, maxObject, vs) == vs
  {
    if vs != [] {
      hide Print;
      AllWithin(f, maxObject, vs[1..]);
    }
  }

  /** A printed stream whose objects are all within the limit comes out whole and ends orderly. */
  lemma {:induction false} ObjectsReadBack(f: Format, maxObject: nat, vs: seq<Value>)
    requires Usable(f) && MinSize(f) > 0 && FitAll(f, vs)
    requires forall i :: 0 <= i < |vs| ==> |Print(f, vs[i])| <= maxObject
    ensures ObjectsOf(f, maxObject, PrintMany(f, vs)) == Lane(vs, [], CleanEof)
  {
    hide Print;
    hide PrintMany;
    hide WalkAll;
    hide ObjectsOf;
    hide NextObject;
    var s := PrintMany(f, vs);
    WalkSplits(f, vs, []);
    NothingWalked(f);
    assert s + [] == s && vs + [] == vs;
    AllWithin(f, maxObject, vs);
    ObjectsExactly(f, maxObject, s);
    var r := ObjectsOf(f, maxObject, s);
    assert r.rest == [];
    EndOfNothing(f, maxObject);
  }

  lemma {:induction false} EndOfNothing(f: Format, maxObject: nat)
    requires MinSize(f) > 0
    ensures NextObject(f, maxObject, []) == Stop(CleanEof)
  {
    EmptyShort(f);
    AtLeastMinSize(f, []);
  }
}
