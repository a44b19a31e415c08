/** internal/announce: sendUpTo called by the re-announce ticker and by the phase goroutine at once. */
module AnnounceRuns {

  /** One SubtreeGroupAnnounce datagram: which pool entry, which group. */
  datatype Datagram = Datagram(sub: nat, group: nat)

  function Row(sub: nat, groups: nat): (r: seq<Datagram>)
    ensures |r| == groups
  {
    if groups == 0 then [] else Row(sub, groups - 1) + [Datagram(sub, groups - 1)]
  }

  /** pool[0..limit) x all groups, subtree by subtree. */
  function Round(limit: nat, groups: nat): (r: seq<Datagram>)
    ensures |r| == limit * groups
  {
    if limit == 0 then [] else Round(limit - 1, groups) + Row(limit - 1, groups)
  }

  lemma {:induction false} RowAt(sub: nat, groups: nat, j: nat)
    requires j < groups
    ensures Row(sub, groups)[j] == Datagram(sub, j)
  {
    if j < groups - 1 {
      RowAt(sub, groups - 1, j);
    }
  }

  /** Every pair once, in order: datagram number i * groups + j is for subtree i and group j. */
  lemma {:induction false} RoundAt(limit: nat, groups: nat, i: nat, j: nat)
    requires i < limit && j < groups
    ensures i * groups + j < |Round(limit, groups)|
    ensures Round(limit, groups)[i * groups + j] == Datagram(i, j)
  {
    assert limit * groups == (limit - 1) * groups + groups;
    if i < limit - 1 {
      RoundAt(limit - 1, groups, i, j);
    } else {
      RowAt(i, groups, j);
    }
  }

  /** The TCP connection: `good` more writes succeed. */
  class Wire {
    var log: seq<Datagram>
    var good: nat

    constructor (good: nat)
      ensures log == [] && this.good == good
    {
      log := [];
      this.good := good;
    }

    method Write(d: Datagram) returns (ok: bool)
      modifies this
      ensures ok <==> old(good) > 0
      ensures ok ==> log == old(log) + [d] && good == old(good) - 1
      ensures !ok ==> log == old(log) && good == 0
    {
      ok := good > 0;
      if ok {
        log := log + [d];
        good := good - 1;
      }
    }
  }

  lemma Grows(limit: nat, groups: nat)
    ensures Round(limit, groups) <= Round(limit + 1, groups)
  {
  }

  lemma {:induction false} RoundPrefix(small: nat, limit: nat, groups: nat, j: nat)
    requires small < limit && j <= groups
    ensures Round(small, groups) + Row(small, groups)[..j] <= Round(limit, groups)
  {
    if small + 1 < limit {
      RoundPrefix(small, limit - 1, groups, j);
      Grows(limit - 1, groups);
    }
  }

  lemma {:induction false} RowPrefix(sub: nat, groups: nat, j: nat)
    requires j <= groups
    ensures Row(sub, groups)[..j] == Row(sub, j)
  {
    if j < groups {
      RowPrefix(sub, groups - 1, j);
    }
  }

  /** One uninterrupted call: the whole round in order, or a prefix of it and an error. */
  method SendUpTo(wire: Wire, limit: int, groups: nat) returns (ok: bool)
    modifies wire
    ensures ok ==> wire.log == old(wire.log) + (if limit <= 0 then [] else Round(limit, groups))
    ensures !ok ==> limit > 0 && exists n :: 0 <= n < |Round(limit, groups)| && wire.log == old(wire.log) + Round(limit, groups)[..n]
    ensures old(wire.good) >= (if limit <= 0 then 0 else limit * groups) ==> ok
  {
    if limit <= 0 {
      return true;
    }
    ghost var log0 := wire.log;
    for i := 0 to limit
      invariant wire.log == log0 + Round(i, groups)
      invariant wire.good + i * groups == old(wire.good)
    {
      for j := 0 to groups
        invariant wire.log == log0 + (Round(i, groups) + Row(i, j))
        invariant wire.good + i * groups + j == old(wire.good)
      {
        RowPrefix(i, groups, j);
        RoundPrefix(i, limit, groups, j);
        RoundPrefix(i, limit, groups, groups);
        RowPrefix(i, groups, groups);
        ok := wire.Write(Datagram(i, j));
        if !ok {
          ghost var n := |Round(i, groups) + Row(i, j)|;
          assert Round(limit, groups)[..n] == Round(i, groups) + Row(i, j);
          return;
        }
        assert log0 + (Round(i, groups) + Row(i, j)) + [Datagram(i, j)] == log0 + (Round(i, groups) + (Row(i, j) + [Datagram(i, j)]));
      }
      assert (i + 1) * groups == i * groups + groups;
    }
    return true;
  }

  // ---------------------------------------------------------------- concurrent callers

  /** What one finished call left in the log: its whole round when it returned nil, else the prefix before
      its write error. */
  datatype Piece = Piece(limit: nat, written: nat, done: bool)

  /** A caller outside sendUpTo, waiting for writeMu, or holding it with `written` datagrams sent. */
  datatype Caller = Outside | Waiting(limit: nat) | Holding(limit: nat, written: nat)

  datatype State = State(callers: seq<Caller>, locked: bool, log: seq<Datagram>, pieces: seq<Piece>)

  datatype Action =
    | Call(t: nat, limit: nat)
    | Lock(t: nat)
    | Send(t: nat)
    | Return(t: nat)   // after the last datagram
    | Fail(t: nat)     // a write error

  predicate Enabled(groups: nat, s: State, a: Action) {
    && a.t < |s.callers|
    && match a
       case Call(t, limit) => s.callers[t].Outside? && limit > 0
       case Lock(t) => s.callers[t].Waiting? && !s.locked
       case Send(t) => s.callers[t].Holding? && s.callers[t].written < |Round(s.callers[t].limit, groups)|
       case Return(t) => s.callers[t].Holding? && s.callers[t].written == |Round(s.callers[t].limit, groups)|
       case Fail(t) => s.callers[t].Holding? && s.callers[t].written < |Round(s.callers[t].limit, groups)|
  }

  /** The call of t is over and the lock free again. */
  function Leave(s: State, t: nat, p: Piece): State
    requires t < |s.callers|
  {
    s.(callers := s.callers[t := Outside], locked := false, pieces := s.pieces + [p])
  }

  function Apply(groups: nat, s: State, a: Action): State
    requires Enabled(groups, s, a)
  {
    var c := s.callers[a.t];
    match a
    case Call(t, limit) => s.(callers := s.callers[t := Waiting(limit)])
    case Lock(t) => s.(callers := s.callers[t := Holding(c.limit, 0)], locked := true)
    case Send(t) =>
      s.(callers := s.callers[t := Holding(c.limit, c.written + 1)], log := s.log + [Round(c.limit, groups)[c.written]])
    case Return(t) => Leave(s, t, Piece(c.limit, c.written, true))
    case Fail(t) => Leave(s, t, Piece(c.limit, c.written, false))
  }

  predicate Runs(groups: nat, s: State, acts: seq<Action>)
    decreases |acts|
  {
    acts == [] || (Enabled(groups, s, acts[0]) && Runs(groups, Apply(groups, s, acts[0]), acts[1..]))
  }

  function Exec(groups: nat, s: State, acts: seq<Action>): State
    requires Runs(groups, s, acts)
    decreases |acts|
  {
    if acts == [] then s else Exec(groups, Apply(groups, s, acts[0]), acts[1..])
  }

  function Init(n: nat): State {
    State(seq(n, _ => Outside), false, [], [])
  }

  /** A call that returned nil wrote its whole round, a failed one less than that. */
  predicate Fits(groups: nat, p: Piece) {
    if p.done then p.written == |Round(p.limit, groups)| else p.written < |Round(p.limit, groups)|
  }

  /** The datagrams of the finished calls, one call after the other. */
  function Wires(groups: nat, pieces: seq<Piece>): seq<Datagram>
    requires forall i :: 0 <= i < |pieces| ==> Fits(groups, pieces[i])
  {
    if pieces == [] then []
    else
      var k := |pieces| - 1;
      assert Fits(groups, pieces[k]);
      Wires(groups, pieces[..k]) + Round(pieces[k].limit, groups)[..pieces[k].written]
  }

  /** The datagrams of the call in progress, if one holds the lock. */
  ghost predicate Inv(groups: nat, s: State) {
    && (forall i :: 0 <= i < |s.pieces| ==> Fits(groups, s.pieces[i]))
    && (forall t :: 0 <= t < |s.callers| && s.callers[t].Holding? ==>
          && s.locked
          && s.callers[t].written <= |Round(s.callers[t].limit, groups)|
          && s.log == Wires(groups, s.pieces) + Round(s.callers[t].limit, groups)[..s.callers[t].written])
    && (forall t, u :: 0 <= t < u < |s.callers| ==> !(s.callers[t].Holding? && s.callers[u].Holding?))
    && (!s.locked ==> s.log == Wires(groups, s.pieces))
    && (s.locked ==> exists t :: 0 <= t < |s.callers| && s.callers[t].Holding?)
  }

  lemma {:induction false} LockInv(groups: nat, s: State, a: Action)
    requires Inv(groups, s) && Enabled(groups, s, a) && (a.Call? || a.Lock?)
    ensures Inv(groups, Apply(groups, s, a))
  {
    hide Round;
    hide Wires;
    var s' := Apply(groups, s, a);
    if a.Lock? {
      assert s'.callers[a.t].Holding?;
      assert Wires(groups, s.pieces) + Round(s'.callers[a.t].limit, groups)[..0] == s.log;
    } else if s.locked {
      var t :| 0 <= t < |s.callers| && s.callers[t].Holding?;
      assert s'.callers[t].Holding?;
    }
  }

  lemma {:induction false} SendInv(groups: nat, s: State, t: nat)
    requires Inv(groups, s) && Enabled(groups, s, Send(t))
    ensures Inv(groups, Apply(groups, s, Send(t)))
  {
    hide Round;
    hide Wires;
    var s' := Apply(groups, s, Send(t));
    var r, k := Round(s.callers[t].limit, groups), s.callers[t].written;
    assert s'.callers[t].Holding?;
    assert r[..k + 1] == r[..k] + [r[k]];
    assert Wires(groups, s.pieces) + r[..k] + [r[k]] == Wires(groups, s.pieces) + r[..k + 1];
  }

  lemma {:induction false} LeaveInv(groups: nat, s: State, a: Action)
    requires Inv(groups, s) && Enabled(groups, s, a) && (a.Return? || a.Fail?)
    ensures Inv(groups, Apply(groups, s, a))
  {
    hide Round;
    var s' := Apply(groups, s, a);
    assert s'.pieces[..|s.pieces|] == s.pieces;
    assert forall u :: 0 <= u < |s.callers| && u != a.t ==> !s.callers[u].Holding?;
  }

  lemma {:induction false} RunInv(groups: nat, s: State, acts: seq<Action>)
    requires Inv(groups, s) && Runs(groups, s, acts)
    ensures Inv(groups, Exec(groups, s, acts))
    decreases |acts|
  {
    if acts != [] {
      var a := acts[0];
      if a.Call? || a.Lock? { LockInv(groups, s, a); } else if a.Send? { SendInv(groups, s, a.t); } else { LeaveInv(groups, s, a); }
      hide Inv;
      RunInv(groups, Apply(groups, s, a), acts[1..]);
    }
  }

  /** Under every scheduling the log is what the finished calls wrote, one after the other and none mixed
      with another: the whole round of each call that returned nil, a proper prefix for each that failed.
      The part a call in progress has written comes last. */
  lemma {:induction false} NeverInterleaved(groups: nat, n: nat, acts: seq<Action>)
    requires Runs(groups, Init(n), acts)
    ensures var s := Exec(groups, Init(n), acts);
            && (forall i :: 0 <= i < |s.pieces| ==> Fits(groups, s.pieces[i]))
            && (!s.locked ==> s.log == Wires(groups, s.pieces))
            && (s.locked ==> exists t :: 0 <= t < |s.callers| && s.callers[t].Holding?
                               && s.callers[t].written <= |Round(s.callers[t].limit, groups)|
                               && s.log == Wires(groups, s.pieces) + Round(s.callers[t].limit, groups)[..s.callers[t].written])
  {
    RunInv(groups, Init(n), acts);
  }
}
