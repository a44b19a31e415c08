/** internal/seq under concurrency: Next as its separate atomic steps, DueRetransmits as one (it holds
    the mutex), interleaved in any way among any number of goroutines.  Counters do not wrap here. */
module SeqRuns {
  import opened Numbers
  import opened SeqAlloc

  /** Where a goroutine is inside Next. */
  datatype PC =
    | Idle
    | Took(s: nat)                            // after next.Add(1), before counter.Add(1)
    | Reserving(s: nat, gap: seq<nat>)        // an injecting call, part of its gap taken

  datatype State = State(
    next: nat,
    counter: nat,
    pending: seq<Gap>,
    threads: seq<PC>,
    returned: seq<nat>,
    resent: seq<nat>,
    lost: seq<nat>)

  datatype Action =
    | Take(t: nat)
    | Count(t: nat)
    | Reserve(t: nat)
    | Finish(t: nat, dueAt: int)
    | Resend(now: int)

  function Init(cfg: Config, n: nat): State {
    State(cfg.First(), 0, [], seq(n, _ => Idle), [], [], [])
  }

  predicate Enabled(cfg: Config, s: State, a: Action) {
    match a
    case Take(t) => t < |s.threads| && s.threads[t].Idle?
    case Count(t) => cfg.GapEnabled() && t < |s.threads| && s.threads[t].Took?
    case Reserve(t) => t < |s.threads| && s.threads[t].Reserving? && |s.threads[t].gap| < cfg.gapSize
    case Finish(t, _) => t < |s.threads| && s.threads[t].Reserving? && |s.threads[t].gap| == cfg.gapSize
    case Resend(_) => true
  }

  function Apply(cfg: Config, s: State, a: Action): State
    requires Enabled(cfg, s, a)
  {
    match a
    case Take(t) =>
      var s1 := s.(next := s.next + 1);
      if cfg.GapEnabled() then s1.(threads := s.threads[t := Took(s.next)])
      else s1.(returned := s.returned + [s.next])
    case Count(t) =>
      var s1 := s.(counter := s.counter + 1);
      var mine := s.threads[t].s;
      if (s.counter + 1) % cfg.gapEvery == 0 then s1.(threads := s.threads[t := Reserving(mine, [])])
      else s1.(threads := s.threads[t := Idle], returned := s.returned + [mine])
    case Reserve(t) =>
      var pc := s.threads[t];
      s.(next := s.next + 1, threads := s.threads[t := Reserving(pc.s, pc.gap + [s.next])])
    case Finish(t, dueAt) =>
      var pc := s.threads[t];
      var s1 := s.(threads := s.threads[t := Idle], returned := s.returned + [pc.s]);
      if cfg.gapDelay > 0 then s1.(pending := s.pending + [Gap(pc.gap, dueAt)])
      else s1.(lost := s.lost + pc.gap)
    case Resend(now) =>
      s.(pending := KeepOf(s.pending, now), resent := s.resent + Flat(DueOf(s.pending, now)))
  }

  predicate Runs(cfg: Config, s: State, acts: seq<Action>)
    decreases |acts|
  {
    acts == [] || (Enabled(cfg, s, acts[0]) && Runs(cfg, Apply(cfg, s, acts[0]), acts[1..]))
  }

  function Exec(cfg: Config, s: State, acts: seq<Action>): State
    requires Runs(cfg, s, acts)
    decreases |acts|
  {
    if acts == [] then s else Exec(cfg, Apply(cfg, s, acts[0]), acts[1..])
  }

  // ---------------------------------------------------------------- where every number is

  /** The numbers a goroutine has taken and not yet passed on. */
  function Held(pc: PC): seq<nat> {
    match pc
    case Idle => []
    case Took(n) => [n]
    case Reserving(n, gap) => [n] + gap
  }

  /** How often x occurs in s. */
  ghost function Occ(s: seq<nat>, x: nat): nat {
    multiset(s)[x]
  }

  lemma {:induction false} OccAppend(s: seq<nat>, t: seq<nat>, x: nat)
    ensures Occ(s + t, x) == Occ(s, x) + Occ(t, x)
    ensures Occ([], x) == 0
    ensures forall y: nat :: Occ([y], x) == if x == y then 1 else 0
  {
    assert multiset(s + t) == multiset(s) + multiset(t);
    forall y: nat
      ensures Occ([y], x) == if x == y then 1 else 0
    {
      assert multiset([y]) == multiset{y};
    }
  }

  ghost function HeldAll(threads: seq<PC>, x: nat): nat {
    if threads == [] then 0 else Occ(Held(threads[0]), x) + HeldAll(threads[1..], x)
  }

  /** In how many places the number x is. */
  ghost function Places(s: State, x: nat): nat {
    Occ(s.returned, x) + Occ(s.resent, x) + Occ(s.lost, x) + Occ(Flat(s.pending), x) + HeldAll(s.threads, x)
  }

  lemma {:induction false} HeldUpdate(threads: seq<PC>, t: nat, pc: PC, x: nat)
    requires t < |threads|
    ensures HeldAll(threads[t := pc], x) + Occ(Held(threads[t]), x) == HeldAll(threads, x) + Occ(Held(pc), x)
  {
    hide Held;
    hide Occ;
    var ts := threads[t := pc];
    if t == 0 {
      assert ts[1..] == threads[1..];
    } else {
      assert ts[1..] == threads[1..][t - 1 := pc];
      HeldUpdate(threads[1..], t - 1, pc, x);
    }
  }

  // ---------------------------------------------------------------- counting

  /** How far the calls in progress are: numbers of calls begun and counted, and gap numbers still to take. */
  datatype Tally = Tally(busy: nat, counted: nat, missing: nat)

  function TallyOf(cfg: Config, pc: PC): Tally {
    match pc
    case Idle => Tally(0, 0, 0)
    case Took(_) => Tally(1, 0, 0)
    case Reserving(_, gap) => Tally(1, 1, if |gap| <= cfg.gapSize then cfg.gapSize - |gap| else 0)
  }

  function Plus(a: Tally, b: Tally): Tally {
    Tally(a.busy + b.busy, a.counted + b.counted, a.missing + b.missing)
  }

  function TallyAll(cfg: Config, threads: seq<PC>): Tally {
    if threads == [] then Tally(0, 0, 0) else Plus(TallyOf(cfg, threads[0]), TallyAll(cfg, threads[1..]))
  }

  lemma {:induction false} TallyUpdate(cfg: Config, threads: seq<PC>, t: nat, pc: PC)
    requires t < |threads|
    ensures Plus(TallyAll(cfg, threads[t := pc]), TallyOf(cfg, threads[t])) == Plus(TallyAll(cfg, threads), TallyOf(cfg, pc))
  {
    var ts := threads[t := pc];
    if t == 0 {
      assert ts[1..] == threads[1..];
    } else {
      assert ts[1..] == threads[1..][t - 1 := pc];
      TallyUpdate(cfg, threads[1..], t - 1, pc);
    }
  }

  // ---------------------------------------------------------------- the invariant

  /** Every number handed out by the counter is in exactly one place, and the counter is where the
      completed and the unfinished calls put it. */
  ghost predicate Inv(cfg: Config, s: State) {
    && cfg.First() <= s.next
    && (forall x: nat :: Places(s, x) == if cfg.First() <= x < s.next then 1 else 0)
    && Accounted(cfg, s)
    && (forall t :: 0 <= t < |s.threads| ==> WellPlaced(cfg, s.threads[t]))
  }

  predicate WellPlaced(cfg: Config, pc: PC) {
    && (!pc.Idle? ==> cfg.GapEnabled())
    && (pc.Reserving? ==> |pc.gap| <= cfg.gapSize)
  }

  ghost predicate Accounted(cfg: Config, s: State) {
    var all := TallyAll(cfg, s.threads);
    && (cfg.GapEnabled() ==> s.counter == |s.returned| + all.counted)
    && s.next + all.missing
       == cfg.First() + |s.returned| + all.busy + (if cfg.GapEnabled() then cfg.gapSize * (s.counter / cfg.gapEvery) else 0)
  }

  lemma {:induction false} InitTally(cfg: Config, n: nat, x: nat)
    ensures HeldAll(Init(cfg, n).threads, x) == 0
    ensures TallyAll(cfg, Init(cfg, n).threads) == Tally(0, 0, 0)
  {
    if n > 0 {
      assert Init(cfg, n).threads[1..] == Init(cfg, n - 1).threads;
      InitTally(cfg, n - 1, x);
    }
  }

  lemma {:induction false} InitInv(cfg: Config, n: nat)
    ensures Inv(cfg, Init(cfg, n))
  {
    forall x: nat
      ensures Places(Init(cfg, n), x) == 0
    {
      InitTally(cfg, n, x);
    }
    InitTally(cfg, n, 0);
    hide Places;
    hide TallyAll;
    if cfg.GapEnabled() {
      assert 0 / cfg.gapEvery == 0 && cfg.gapSize * 0 == 0;
    }
  }

  lemma StepPlaced(cfg: Config, s: State, a: Action)
    requires Inv(cfg, s) && Enabled(cfg, s, a)
    ensures var s' := Apply(cfg, s, a); forall t :: 0 <= t < |s'.threads| ==> WellPlaced(cfg, s'.threads[t])
  {
  }

  /** A step moves numbers between places; only the two that take a number add one, the next. */
  lemma {:induction false} StepPlaces(cfg: Config, s: State, a: Action, x: nat)
    requires Enabled(cfg, s, a)
    ensures Places(Apply(cfg, s, a), x) == Places(s, x) + if (a.Take? || a.Reserve?) && x == s.next then 1 else 0
  {
    hide HeldAll;
    hide Flat;
    hide Occ;
    match a
    case Take(t) =>
      HeldUpdate(s.threads, t, Took(s.next), x);
      OccAppend(s.returned, [s.next], x);
    case Count(t) =>
      var mine := s.threads[t].s;
      HeldUpdate(s.threads, t, Idle, x);
      HeldUpdate(s.threads, t, Reserving(mine, []), x);
      OccAppend(s.returned, [mine], x);
      assert Held(Reserving(mine, [])) == [mine];
    case Reserve(t) =>
      var pc := s.threads[t];
      HeldUpdate(s.threads, t, Reserving(pc.s, pc.gap + [s.next]), x);
      OccAppend(Held(pc), [s.next], x);
      assert [pc.s] + (pc.gap + [s.next]) == Held(pc) + [s.next];
    case Finish(t, dueAt) => FinishPlaces(cfg, s, t, dueAt, x);
    case Resend(now) =>
      DuePartition(s.pending, now);
      OccAppend(s.resent, Flat(DueOf(s.pending, now)), x);
      OccPartition(s.pending, now, x);
  }

  lemma {:induction false} OccPartition(ps: seq<Gap>, now: int, x: nat)
    ensures Occ(Flat(ps), x) == Occ(Flat(DueOf(ps, now)), x) + Occ(Flat(KeepOf(ps, now)), x)
  {
    DuePartition(ps, now);
  }

  lemma {:induction false} FinishPlaces(cfg: Config, s: State, t: nat, dueAt: int, x: nat)
    requires Enabled(cfg, s, Finish(t, dueAt))
    ensures Places(Apply(cfg, s, Finish(t, dueAt)), x) == Places(s, x)
  {
    hide HeldAll;
    hide Flat;
    hide Occ;
    var pc := s.threads[t];
    HeldUpdate(s.threads, t, Idle, x);
    OccAppend([pc.s], pc.gap, x);
    OccAppend(s.returned, [pc.s], x);
    FlatAppend(s.pending, Gap(pc.gap, dueAt));
    OccAppend(Flat(s.pending), pc.gap, x);
    OccAppend(s.lost, pc.gap, x);
  }

  lemma {:induction false} StepAccounted(cfg: Config, s: State, a: Action)
    requires Inv(cfg, s) && Enabled(cfg, s, a)
    ensures Accounted(cfg, Apply(cfg, s, a))
  {
    hide TallyAll;
    hide Places;
    match a
    case Take(t) =>
      TallyUpdate(cfg, s.threads, t, Took(s.next));
    case Count(t) =>
      CountAccounted(cfg, s, t);
    case Reserve(t) =>
      var pc := s.threads[t];
      TallyUpdate(cfg, s.threads, t, Reserving(pc.s, pc.gap + [s.next]));
    case Finish(t, dueAt) =>
      TallyUpdate(cfg, s.threads, t, Idle);
    case Resend(now) =>
  }

  lemma {:induction false} CountAccounted(cfg: Config, s: State, t: nat)
    requires Accounted(cfg, s) && Enabled(cfg, s, Count(t))
    ensures Accounted(cfg, Apply(cfg, s, Count(t)))
  {
    hide TallyAll;
    var mine := s.threads[t].s;
    TallyUpdate(cfg, s.threads, t, Idle);
    TallyUpdate(cfg, s.threads, t, Reserving(mine, []));
    var q := s.counter / cfg.gapEvery;
    Successor(s.counter + 1, cfg.gapEvery);
    Distribute(q, 1, cfg.gapSize);
    assert cfg.gapSize * (q + 1) == cfg.gapSize * q + cfg.gapSize;
  }

  lemma {:induction false} RunInv(cfg: Config, s: State, acts: seq<Action>)
    requires Inv(cfg, s) && Runs(cfg, s, acts)
    ensures Inv(cfg, Exec(cfg, s, acts))
    decreases |acts|
  {
    if acts != [] {
      hide Inv;
      StepInv(cfg, s, acts[0]);
      RunInv(cfg, Apply(cfg, s, acts[0]), acts[1..]);
    }
  }

  lemma {:induction false} StepInv(cfg: Config, s: State, a: Action)
    requires Inv(cfg, s) && Enabled(cfg, s, a)
    ensures Inv(cfg, Apply(cfg, s, a))
  {
    StepPlaced(cfg, s, a);
    StepAccounted(cfg, s, a);
    hide Places;
    hide Accounted;
    forall x: nat
      ensures Places(Apply(cfg, s, a), x) == if cfg.First() <= x < Apply(cfg, s, a).next then 1 else 0
    {
      StepPlaces(cfg, s, a, x);
      NextMoves(cfg, s, a);
    }
  }

  lemma NextMoves(cfg: Config, s: State, a: Action)
    requires Enabled(cfg, s, a)
    ensures Apply(cfg, s, a).next == if a.Take? || a.Reserve? then s.next + 1 else s.next
  {
  }

  // ---------------------------------------------------------------- what holds of every run

  /** In every interleaving each number of [start, next) is in exactly one place (returned, resent,
      lost, pending or held by a call in progress) and no other number is anywhere. */
  lemma {:induction false} NumbersPartitioned(cfg: Config, n: nat, acts: seq<Action>, x: nat)
    requires Runs(cfg, Init(cfg, n), acts)
    ensures var s := Exec(cfg, Init(cfg, n), acts);
            Places(s, x) == if cfg.First() <= x < s.next then 1 else 0
  {
    InitInv(cfg, n);
    RunInv(cfg, Init(cfg, n), acts);
  }

  /** Skipped numbers are given up for good only where no delay is configured, and queued only where one is. */
  predicate RightPlace(cfg: Config, s: State) {
    if cfg.gapDelay > 0 then s.lost == [] else s.pending == [] && s.resent == []
  }

  lemma {:induction false} RunRightPlace(cfg: Config, s: State, acts: seq<Action>)
    requires Runs(cfg, s, acts) && RightPlace(cfg, s)
    ensures RightPlace(cfg, Exec(cfg, s, acts))
    decreases |acts|
  {
    if acts != [] {
      RunRightPlace(cfg, Apply(cfg, s, acts[0]), acts[1..]);
    }
  }

  /** With a delay no number is ever lost; without one none is ever queued or resent. */
  lemma {:induction false} LostOnlyWithoutDelay(cfg: Config, n: nat, acts: seq<Action>)
    requires Runs(cfg, Init(cfg, n), acts)
    ensures var s := Exec(cfg, Init(cfg, n), acts);
            && (cfg.gapDelay > 0 ==> s.lost == [])
            && (cfg.gapDelay <= 0 ==> s.pending == [] && s.resent == [])
  {
    RunRightPlace(cfg, Init(cfg, n), acts);
  }

  /** ... so no number is handed out twice, by Next or by DueRetransmits. */
  lemma {:induction false} NeverTwice(cfg: Config, n: nat, acts: seq<Action>)
    requires Runs(cfg, Init(cfg, n), acts)
    ensures var out := Exec(cfg, Init(cfg, n), acts).returned + Exec(cfg, Init(cfg, n), acts).resent;
            forall i, j :: 0 <= i < j < |out| ==> out[i] != out[j]
  {
    var s := Exec(cfg, Init(cfg, n), acts);
    var out := s.returned + s.resent;
    forall x: nat
      ensures Occ(out, x) <= 1
    {
      NumbersPartitioned(cfg, n, acts, x);
      OccAppend(s.returned, s.resent, x);
    }
    forall i, j | 0 <= i < j < |out|
      ensures out[i] != out[j]
    {
      TwiceCounted(out, i, j);
    }
  }

  lemma {:induction false} TwiceCounted(out: seq<nat>, i: nat, j: nat)
    requires i < j < |out|
    ensures out[i] == out[j] ==> Occ(out, out[i]) >= 2
  {
    assert out == out[..j] + out[j..];
    assert out[..j][i] == out[i] && out[j..][0] == out[j];
    OccAppend(out[..j], out[j..], out[i]);
  }

  /** Whenever no call is in progress, the counter is a function of how many calls completed alone. */
  lemma {:induction false} QuiescentNext(cfg: Config, n: nat, acts: seq<Action>)
    requires Runs(cfg, Init(cfg, n), acts)
    ensures var s := Exec(cfg, Init(cfg, n), acts);
            (forall t :: 0 <= t < |s.threads| ==> s.threads[t].Idle?) ==>
              s.next == cfg.First() + |s.returned|
                        + (if cfg.GapEnabled() then cfg.gapSize * (|s.returned| / cfg.gapEvery) else 0)
  {
    InitInv(cfg, n);
    hide Inv;
    RunInv(cfg, Init(cfg, n), acts);
    var s := Exec(cfg, Init(cfg, n), acts);
    if forall t :: 0 <= t < |s.threads| ==> s.threads[t].Idle? {
      AtRest(cfg, s);
    }
  }

  lemma {:induction false} AtRest(cfg: Config, s: State)
    requires Inv(cfg, s) && forall t :: 0 <= t < |s.threads| ==> s.threads[t].Idle?
    ensures s.next == cfg.First() + |s.returned|
                      + (if cfg.GapEnabled() then cfg.gapSize * (|s.returned| / cfg.gapEvery) else 0)
  {
    AllIdle(cfg, s.threads);
    hide TallyAll;
    hide Places;
    assert Accounted(cfg, s);
  }

  lemma {:induction false} AllIdle(cfg: Config, threads: seq<PC>)
    requires forall t :: 0 <= t < |threads| ==> threads[t].Idle?
    ensures TallyAll(cfg, threads) == Tally(0, 0, 0)
  {
    if threads != [] {
      AllIdle(cfg, threads[1..]);
    }
  }
}
