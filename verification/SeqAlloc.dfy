/** internal/seq: the gap-injecting sequence allocator, called from one goroutine.  SeqRuns has the
    interleavings of concurrent callers. */
module SeqAlloc {
  import opened Bytes
  import opened Numbers

  function Wrap(x: nat): u64 {
    x % U64
  }

  datatype Config = Config(start: u64, gapEvery: u64, gapSize: u64, gapDelay: int) {
    predicate GapEnabled() {
      gapEvery != 0 && gapSize != 0
    }

    function First(): u64 {
      if start == 0 then 1 else start
    }
  }

  /** A group of skipped numbers waiting for its retransmission time. */
  datatype Gap = Gap(seqs: seq<nat>, dueAt: int)

  // ---------------------------------------------------------------- what the calls return

  /** How many of the first `calls` calls injected a gap; the counter wraps like its atomic. */
  function Gaps(gapEvery: u64, calls: nat): (g: nat)
    requires gapEvery != 0
    ensures g <= calls
  {
    if calls == 0 then 0
    else Gaps(gapEvery, calls - 1) + (if Wrap(calls) % gapEvery == 0 then 1 else 0)
  }

  /** The number the next call returns after `calls` calls. */
  function NextAt(cfg: Config, calls: nat): u64 {
    Wrap(cfg.First() + calls + (if cfg.GapEnabled() then cfg.gapSize * Gaps(cfg.gapEvery, calls) else 0))
  }

  /** The call after `calls` calls skips numbers behind the one it returns. */
  predicate Injects(cfg: Config, calls: nat) {
    cfg.GapEnabled() && Wrap(calls + 1) % cfg.gapEvery == 0
  }

  /** n consecutive sequence numbers. */
  function Consecutive(first: nat, n: nat): (s: seq<u64>)
    ensures |s| == n
    ensures forall i :: 0 <= i < n ==> s[i] == Wrap(first + i)
  {
    seq<u64>(n, (i: nat) => Wrap(first + i))
  }

  lemma {:induction false} ConsecutiveWrap(a: nat, n: nat)
    ensures Consecutive(Wrap(a), n) == Consecutive(a, n)
  {
    forall i | 0 <= i < n
      ensures Consecutive(Wrap(a), n)[i] == Consecutive(a, n)[i]
    {
      WrapAdd(a, i);
    }
  }

  function Skipped(cfg: Config, calls: nat): seq<u64> {
    Consecutive(NextAt(cfg, calls) + 1, cfg.gapSize)
  }

  /** What the call after `calls` calls puts into the retransmission queue. */
  function QueuedBy(cfg: Config, calls: nat, now: int): seq<Gap> {
    if Injects(cfg, calls) && cfg.gapDelay > 0 then [Gap(Skipped(cfg, calls), now + cfg.gapDelay)] else []
  }

  lemma WrapSmall(x: nat)
    requires x < U64
    ensures Wrap(x) == x
  {
  }

  lemma {:induction false} GapsStep(gapEvery: u64, calls: nat)
    requires gapEvery != 0 && 0 < calls < U64
    ensures Gaps(gapEvery, calls) == Gaps(gapEvery, calls - 1) + (if calls % gapEvery == 0 then 1 else 0)
  {
    hide Wrap;
    WrapSmall(calls);
  }

  lemma {:induction false} GapsExact(gapEvery: u64, calls: nat)
    requires gapEvery != 0 && calls < U64
    ensures Gaps(gapEvery, calls) == calls / gapEvery
  {
    if calls > 0 {
      hide Gaps;
      GapsExact(gapEvery, calls - 1);
      GapsStep(gapEvery, calls);
      Successor(calls, gapEvery);
    }
  }

  /** Until a counter wraps, call number k returns start + (k-1) + gapSize * floor((k-1) / gapEvery). */
  lemma {:induction false} KthNumber(cfg: Config, k: nat)
    requires 0 < k <= U64 && cfg.GapEnabled()
    requires cfg.First() + (k - 1) + cfg.gapSize * ((k - 1) / cfg.gapEvery) < U64
    ensures NextAt(cfg, k - 1) == cfg.First() + (k - 1) + cfg.gapSize * ((k - 1) / cfg.gapEvery)
  {
    hide Gaps;
    GapsExact(cfg.gapEvery, k - 1);
  }

  // ---------------------------------------------------------------- the retransmission queue

  function Flat(ps: seq<Gap>): seq<nat> {
    if ps == [] then [] else ps[0].seqs + Flat(ps[1..])
  }

  /** The groups that are due, in queue order. */
  function DueOf(ps: seq<Gap>, now: int): seq<Gap> {
    if ps == [] then []
    else if ps[0].dueAt <= now then [ps[0]] + DueOf(ps[1..], now)
    else DueOf(ps[1..], now)
  }

  /** The groups that are not, in queue order. */
  function KeepOf(ps: seq<Gap>, now: int): seq<Gap> {
    if ps == [] then []
    else if ps[0].dueAt <= now then KeepOf(ps[1..], now)
    else [ps[0]] + KeepOf(ps[1..], now)
  }

  lemma DueOne(p: Gap, now: int)
    ensures DueOf([p], now) == (if p.dueAt <= now then [p] else [])
    ensures KeepOf([p], now) == (if p.dueAt <= now then [] else [p])
  {
  }

  lemma {:induction false} DueAppend(ps: seq<Gap>, p: Gap, now: int)
    ensures DueOf(ps + [p], now) == DueOf(ps, now) + (if p.dueAt <= now then [p] else [])
    ensures KeepOf(ps + [p], now) == KeepOf(ps, now) + (if p.dueAt <= now then [] else [p])
  {
    hide DueOf;
    hide KeepOf;
    if ps == [] {
      assert ps + [p] == [p];
      DueOne(p, now);
      NothingDue(now);
    } else {
      DueAppend(ps[1..], p, now);
      DueStep(ps, now);
      DueStep(ps + [p], now);
      assert (ps + [p])[1..] == ps[1..] + [p];
      var d, k := DueOf(ps[1..], now), KeepOf(ps[1..], now);
      assert [ps[0]] + (d + [p]) == [ps[0]] + d + [p] && [ps[0]] + (k + [p]) == [ps[0]] + k + [p];
      assert d + [] == d && k + [] == k;
    }
  }

  lemma DueStep(ps: seq<Gap>, now: int)
    requires ps != []
    ensures DueOf(ps, now) == if ps[0].dueAt <= now then [ps[0]] + DueOf(ps[1..], now) else DueOf(ps[1..], now)
    ensures KeepOf(ps, now) == if ps[0].dueAt <= now then KeepOf(ps[1..], now) else [ps[0]] + KeepOf(ps[1..], now)
  {
  }

  lemma {:induction false} FlatAppend(ps: seq<Gap>, p: Gap)
    ensures Flat(ps + [p]) == Flat(ps) + p.seqs
  {
    if ps == [] {
      assert ps + [p] == [p] && [p][1..] == [];
      assert Flat([p]) == p.seqs + Flat([]);
    } else {
      FlatAppend(ps[1..], p);
      assert (ps + [p])[1..] == ps[1..] + [p];
      assert ps[0].seqs + (Flat(ps[1..]) + p.seqs) == Flat(ps) + p.seqs;
    }
  }

  /** No skipped number is lost or duplicated: the due and the kept groups are the queue. */
  lemma {:induction false} DuePartition(ps: seq<Gap>, now: int)
    ensures multiset(Flat(ps)) == multiset(Flat(DueOf(ps, now))) + multiset(Flat(KeepOf(ps, now)))
    ensures forall p :: p in DueOf(ps, now) ==> p.dueAt <= now
    ensures forall p :: p in KeepOf(ps, now) ==> p.dueAt > now
  {
    if ps == [] {
    } else {
      DuePartition(ps[1..], now);
      var d, k := DueOf(ps[1..], now), KeepOf(ps[1..], now);
      assert ([ps[0]] + d)[1..] == d && ([ps[0]] + k)[1..] == k;
    }
  }

  // ---------------------------------------------------------------- what a call queues

  /** after is before with one more group, due at dueAt: the gapSize numbers behind `taken`, which the call returned. */
  predicate Queues(before: seq<Gap>, after: seq<Gap>, taken: nat, gapSize: nat, dueAt: int) {
    && |after| == |before| + 1 && after[..|before|] == before
    && var g := after[|before|];
       && |g.seqs| == gapSize && g.dueAt == dueAt
       && forall i :: 0 <= i < gapSize ==> g.seqs[i] == (taken + 1 + i) % U64
  }

  /** What one call does, before and after it: it takes a number, and on every gapEvery-th call gapSize more,
      which are queued for now + gapDelay if there is a delay. */
  predicate CallEffect(cfg: Config, calls: nat, now: int, next: nat, next': nat, before: seq<Gap>, after: seq<Gap>) {
    var inject := cfg.gapEvery != 0 && cfg.gapSize != 0 && (calls + 1) % U64 % cfg.gapEvery == 0;
    && next' == (next + 1 + if inject then cfg.gapSize else 0) % U64
    && (if inject && cfg.gapDelay > 0 then Queues(before, after, next, cfg.gapSize, now + cfg.gapDelay) else after == before)
  }

  lemma {:induction false} CallDoes(cfg: Config, calls: nat, now: int, before: seq<Gap>)
    ensures CallEffect(cfg, calls, now, NextAt(cfg, calls), NextAt(cfg, calls + 1), before, before + QueuedBy(cfg, calls, now))
  {
    NextAtStep(cfg, calls);
    hide NextAt;
    GrownBy(before, cfg, calls, now);
  }

  lemma {:induction false} GrownBy(before: seq<Gap>, cfg: Config, calls: nat, now: int)
    ensures var after := before + QueuedBy(cfg, calls, now);
            if Injects(cfg, calls) && cfg.gapDelay > 0
            then Queues(before, after, NextAt(cfg, calls), cfg.gapSize, now + cfg.gapDelay)
            else after == before
  {
    hide NextAt;
    hide Injects;
  }

  lemma {:induction false} SkippedHere(cfg: Config, calls: nat)
    ensures Skipped(cfg, calls) == Consecutive(Wrap(NextAt(cfg, calls) + 1), cfg.gapSize)
  {
    ConsecutiveWrap(NextAt(cfg, calls) + 1, cfg.gapSize);
  }

  /** The numbers lo to hi - 1. */
  function Range(lo: nat, hi: nat): (s: seq<nat>)
    requires lo <= hi
    ensures |s| == hi - lo
  {
    if lo == hi then [] else Range(lo, hi - 1) + [hi - 1]
  }

  lemma {:induction false} RangeOnce(lo: nat, hi: nat, x: nat)
    requires lo <= hi
    ensures multiset(Range(lo, hi))[x] == if lo <= x < hi then 1 else 0
  {
    if lo < hi {
      RangeOnce(lo, hi - 1, x);
    }
  }

  /** What the first n calls return. */
  function Returned(cfg: Config, n: nat): (s: seq<nat>)
    ensures |s| == n
  {
    if n == 0 then [] else Returned(cfg, n - 1) + [NextAt(cfg, n - 1)]
  }

  /** What calls made at the given times queue. */
  function Queued(cfg: Config, nows: seq<int>): seq<Gap> {
    if nows == [] then []
    else Queued(cfg, nows[..|nows| - 1]) + QueuedBy(cfg, |nows| - 1, nows[|nows| - 1])
  }

  /** The numbers taken by n calls, on counters that do not wrap. */
  function TakenBy(cfg: Config, n: nat): nat {
    n + if cfg.GapEnabled() then cfg.gapSize * Gaps(cfg.gapEvery, n) else 0
  }

  lemma {:induction false} TakenStep(cfg: Config, n: nat)
    requires n > 0
    ensures TakenBy(cfg, n) == TakenBy(cfg, n - 1) + 1 + if Injects(cfg, n - 1) then cfg.gapSize else 0
  {
    if cfg.GapEnabled() {
      Distribute(Gaps(cfg.gapEvery, n - 1), 1, cfg.gapSize);
    }
  }

  lemma NextUnwrapped(cfg: Config, n: nat)
    requires cfg.First() + TakenBy(cfg, n) < U64
    ensures NextAt(cfg, n) == cfg.First() + TakenBy(cfg, n)
  {
  }

  lemma {:induction false} RangeMore(lo: nat, hi: nat, n: nat)
    requires lo <= hi && hi + n <= U64
    ensures Range(lo, hi) + Consecutive(hi, n) == Range(lo, hi + n)
  {
    if n > 0 {
      RangeMore(lo, hi, n - 1);
      hide Range;
      RangeStep(lo, hi + n);
      ConsecutiveStep(hi, n);
      assert Range(lo, hi) + (Consecutive(hi, n - 1) + [hi + n - 1]) == Range(lo, hi) + Consecutive(hi, n - 1) + [hi + n - 1];
    }
  }

  lemma RangeStep(lo: nat, hi: nat)
    requires lo < hi
    ensures Range(lo, hi) == Range(lo, hi - 1) + [hi - 1]
  {
  }

  lemma {:induction false} ConsecutiveStep(first: nat, n: nat)
    requires n > 0 && first + n <= U64
    ensures Consecutive(first, n) == Consecutive(first, n - 1) + [first + n - 1]
  {
    hide Consecutive;
  }

  lemma {:induction false} Shuffled(r: seq<nat>, q: seq<nat>, range: seq<nat>, taken: seq<nat>, gap: seq<nat>)
    requires multiset(r + q) == multiset(range)
    ensures multiset(r + taken + (q + gap)) == multiset(range + taken + gap)
  {
    assert multiset(r + taken + (q + gap)) == multiset(r) + multiset(taken) + (multiset(q) + multiset(gap));
    assert multiset(range + taken + gap) == multiset(range) + multiset(taken) + multiset(gap);
  }

  /** The numbers behind the one returned that a call takes and queues. */
  function GapOf(cfg: Config, calls: nat): seq<nat> {
    if Injects(cfg, calls) then Skipped(cfg, calls) else []
  }

  lemma {:induction false} QueuedStep(cfg: Config, before: seq<int>, now: int)
    requires cfg.gapDelay > 0
    ensures Flat(Queued(cfg, before + [now])) == Flat(Queued(cfg, before)) + GapOf(cfg, |before|)
  {
    assert (before + [now])[..|before|] == before;
    var q := Queued(cfg, before);
    hide Skipped;
    hide Injects;
    if Injects(cfg, |before|) {
      FlatAppend(q, QueuedBy(cfg, |before|, now)[0]);
    } else {
      assert q + [] == q && Flat(q) + [] == Flat(q);
    }
  }

  lemma {:induction false} TakenRange(cfg: Config, calls: nat, first: nat)
    requires first <= cfg.First() && cfg.First() + TakenBy(cfg, calls + 1) < U64
    ensures first <= NextAt(cfg, calls) <= NextAt(cfg, calls + 1)
    ensures Range(first, NextAt(cfg, calls + 1)) == Range(first, NextAt(cfg, calls)) + [NextAt(cfg, calls)] + GapOf(cfg, calls)
  {
    TakenStep(cfg, calls + 1);
    NextUnwrapped(cfg, calls);
    NextUnwrapped(cfg, calls + 1);
    hide NextAt;
    hide TakenBy;
    hide Injects;
    hide Consecutive;
    var next := NextAt(cfg, calls);
    RangeStep(first, next + 1);
    hide Range;
    if Injects(cfg, calls) {
      RangeMore(first, next + 1, cfg.gapSize);
    } else {
      assert Range(first, next + 1) + [] == Range(first, next + 1);
    }
  }

  lemma ReturnedStep(cfg: Config, n: nat)
    ensures Returned(cfg, n + 1) == Returned(cfg, n) + [NextAt(cfg, n)]
  {
  }

  lemma {:induction false} PartitionStep(cfg: Config, before: seq<int>, now: int)
    requires cfg.gapDelay > 0 && cfg.First() + TakenBy(cfg, |before| + 1) < U64
    requires cfg.First() <= NextAt(cfg, |before|)
    requires multiset(Returned(cfg, |before|) + Flat(Queued(cfg, before)))
          == multiset(Range(cfg.First(), NextAt(cfg, |before|)))
    ensures cfg.First() <= NextAt(cfg, |before| + 1)
    ensures multiset(Returned(cfg, |before| + 1) + Flat(Queued(cfg, before + [now])))
         == multiset(Range(cfg.First(), NextAt(cfg, |before| + 1)))
  {
    hide NextAt;
    hide TakenBy;
    hide Returned;
    hide Queued;
    hide Flat;
    hide Range;
    hide GapOf;
    hide Config.First;
    var n := |before|;
    TakenRange(cfg, n, cfg.First());
    QueuedStep(cfg, before, now);
    ReturnedStep(cfg, n);
    Shuffled(Returned(cfg, n), Flat(Queued(cfg, before)), Range(cfg.First(), NextAt(cfg, n)), [NextAt(cfg, n)], GapOf(cfg, n));
  }

  /** With a delay, as long as no counter wraps, the numbers n calls return and those they queue are together
      exactly the numbers from the start up to the next one, each once. */
  lemma {:induction false} CallsPartition(cfg: Config, nows: seq<int>)
    requires cfg.gapDelay > 0 && cfg.First() + TakenBy(cfg, |nows|) < U64
    ensures cfg.First() == (if cfg.start == 0 then 1 else cfg.start) <= NextAt(cfg, |nows|)
    ensures multiset(Returned(cfg, |nows|) + Flat(Queued(cfg, nows)))
         == multiset(Range(cfg.First(), NextAt(cfg, |nows|)))
  {
    hide NextAt;
    hide TakenBy;
    hide Returned;
    hide Queued;
    hide Flat;
    hide Range;
    if nows == [] {
      NoCalls(cfg, nows);
    } else {
      var before, now := nows[..|nows| - 1], nows[|nows| - 1];
      assert nows == before + [now] && |nows| == |before| + 1;
      TakenStep(cfg, |nows|);
      CallsPartition(cfg, before);
      PartitionStep(cfg, before, now);
    }
  }

  lemma {:induction false} NoCalls(cfg: Config, nows: seq<int>)
    requires nows == []
    ensures cfg.First() == NextAt(cfg, 0)
    ensures Returned(cfg, 0) + Flat(Queued(cfg, nows)) == Range(cfg.First(), cfg.First())
  {
    assert TakenBy(cfg, 0) == 0;
    NextUnwrapped(cfg, 0);
  }

  /** ... so a number is returned or queued, once, exactly when it is one of those. */
  lemma {:induction false} EachOnce(cfg: Config, nows: seq<int>, x: nat)
    requires cfg.gapDelay > 0 && cfg.First() + TakenBy(cfg, |nows|) < U64
    ensures multiset(Returned(cfg, |nows|) + Flat(Queued(cfg, nows)))[x]
         == if (if cfg.start == 0 then 1 else cfg.start) <= x < NextAt(cfg, |nows|) then 1 else 0
  {
    CallsPartition(cfg, nows);
    RangeOnce(cfg.First(), NextAt(cfg, |nows|), x);
  }

  // ---------------------------------------------------------------- Allocator

  class Allocator {
    var next: u64
    const cfg: Config
    var counter: u64
    /** The slice `pending` is queue[..len]; its capacity is queue.Length. */
    var queue: array<Gap>
    var len: nat
    ghost var calls: nat

    ghost predicate Valid()
      reads this
    {
      && len <= queue.Length
      && next == NextAt(cfg, calls)
      && (cfg.GapEnabled() ==> counter == Wrap(calls))
    }

    ghost function Pending(): seq<Gap>
      requires len <= queue.Length
      reads this, queue
    {
      queue[..len]
    }

    constructor (cfg: Config)
      ensures Valid() && fresh(queue) && Pending() == []
      ensures this.cfg == cfg && calls == 0 && next == if cfg.start == 0 then 1 else cfg.start
    {
      this.cfg := cfg;
      next := cfg.First();
      counter := 0;
      queue := new Gap[0];
      len := 0;
      calls := 0;
    }

    /** now is the clock reading a gap is queued at. */
    method Next(now: int) returns (s: u64)
      requires Valid()
      modifies this, queue
      ensures Valid() && calls == old(calls) + 1
      ensures s == old(next) == NextAt(cfg, old(calls))
      ensures queue == old(queue) || fresh(queue)
      ensures CallEffect(cfg, old(calls), now, old(next), next, old(Pending()), Pending())
      ensures Pending() == old(Pending()) + QueuedBy(cfg, old(calls), now)
    {
      hide CallEffect;
      hide Wrap;
      hide Gaps;
      hide NextAt;
      hide Skipped;
      hide Consecutive;
      ghost var before := Pending();
      CallDoes(cfg, calls, now, before);
      NextAtStep(cfg, calls);
      s := next;
      next := Wrap(next + 1);
      calls := calls + 1;
      WrapAdd(s, 1);
      WrapAdd(s + 1, cfg.gapSize);
      SkippedHere(cfg, calls - 1);
      WrapAdd(calls - 1, 1);
      if !cfg.GapEnabled() {
        assert before + [] == before;
        return;
      }
      counter := Wrap(counter + 1);
      if counter % cfg.gapEvery == 0 {
        var gap := Reserve();
        if cfg.gapDelay > 0 {
          Append(Gap(gap, now + cfg.gapDelay));
        }
      }
      assert before + [] == before;
    }

    /** Lines 74-77: gapSize more numbers taken one by one. */
    method Reserve() returns (gap: seq<u64>)
      modifies this`next
      ensures gap == Consecutive(old(next), cfg.gapSize)
      ensures next == Wrap(old(next) + cfg.gapSize)
    {
      gap := [];
      for i := 0 to cfg.gapSize
        invariant |gap| == i && next == Wrap(old(next) + i)
        invariant forall j :: 0 <= j < i ==> gap[j] == Wrap(old(next) + j)
      {
        gap := gap + [next];
        next := Wrap(next + 1);
        WrapAdd(old(next) + i, 1);
      }
    }

    /** append(a.pending, g): in place while there is capacity, into a larger array otherwise. */
    method Append(g: Gap)
      requires len <= queue.Length
      modifies this`queue, this`len, queue
      ensures queue == old(queue) || fresh(queue)
      ensures len == old(len) + 1 <= queue.Length
      ensures Pending() == old(Pending()) + [g]
    {
      if len == queue.Length {
        var bigger := new Gap[2 * len + 1](i requires 0 <= i reads this, queue => if i < queue.Length then queue[i] else g);
        queue := bigger;
      }
      queue[len] := g;
      len := len + 1;
    }

    /** Compacts the queue in its own array while it is being read. */
    method DueRetransmits(now: int) returns (due: seq<nat>)
      requires Valid()
      modifies this`len, queue
      ensures Valid()
      ensures due == Flat(DueOf(old(Pending()), now))
      ensures Pending() == KeepOf(old(Pending()), now)
    {
      hide DueOf;
      hide KeepOf;
      hide Flat;
      due := [];
      if len == 0 {
        NothingDue(now);
        return;
      }
      ghost var ps := queue[..len];
      ghost var gone, kept: seq<Gap> := [], [];
      NothingDue(now);
      assert ps[..0] == [];
      var k := 0;
      for i := 0 to len
        invariant k == |kept| <= i && len == |ps|
        invariant gone == DueOf(ps[..i], now) && kept == KeepOf(ps[..i], now)
        invariant due == Flat(gone)
        invariant forall j :: i <= j < len ==> queue[j] == ps[j]
        invariant forall j :: 0 <= j < k ==> queue[j] == kept[j]
      {
        var p := queue[i];
        assert ps[..i + 1] == ps[..i] + [p];
        DueAppend(ps[..i], p, now);
        if p.dueAt <= now {
          FlatAppend(gone, p);
          due := due + p.seqs;
          gone := gone + [p];
        } else {
          queue[k] := p;
          k := k + 1;
          kept := kept + [p];
        }
      }
      assert ps[..len] == ps;
      len := k;
      assert queue[..len] == kept;
    }
  }

  lemma NothingDue(now: int)
    ensures DueOf([], now) == KeepOf([], now) == [] && Flat([]) == []
  {
  }

  lemma WrapAdd(a: nat, b: nat)
    ensures Wrap(Wrap(a) + b) == Wrap(a + b)
  {
  }

  /** One call advances the counter by one, plus gapSize on an injection. */
  lemma {:induction false} NextAtStep(cfg: Config, calls: nat)
    ensures NextAt(cfg, calls + 1) == Wrap(NextAt(cfg, calls) + (if Injects(cfg, calls) then 1 + cfg.gapSize else 1))
  {
    hide Wrap;
    if cfg.GapEnabled() {
      var g := Gaps(cfg.gapEvery, calls);
      Distribute(g, 1, cfg.gapSize);
      WrapAdd(cfg.First() + calls + cfg.gapSize * g, if Injects(cfg, calls) then 1 + cfg.gapSize else 1);
    } else {
      WrapAdd(cfg.First() + calls, 1);
    }
  }

  // ---------------------------------------------------------------- PerFlowAllocator

  datatype FlowKey = FlowKey(groupIdx: nat, subtreeID: Digest)

  class PerFlowAllocator {
    const cfg: Config
    var allocs: map<FlowKey, Allocator>

    ghost function Queues(): set<array<Gap>>
      reads this, allocs.Values
    {
      set k | k in allocs :: allocs[k].queue
    }

    ghost predicate Valid()
      reads this, allocs.Values
    {
      && (forall k :: k in allocs ==> allocs[k].Valid() && allocs[k].cfg == cfg)
      && (forall j, k :: j in allocs && k in allocs && j != k ==> allocs[j] != allocs[k] && allocs[j].queue != allocs[k].queue)
    }

    /** How often Next was called for a flow. */
    ghost function Calls(k: FlowKey): nat
      reads this, allocs.Values
    {
      if k in allocs then allocs[k].calls else 0
    }

    /** A flow's own retransmission queue. */
    ghost function PendingOf(k: FlowKey): seq<Gap>
      requires Valid()
      reads this, allocs.Values, Queues()
    {
      if k in allocs then allocs[k].Pending() else []
    }

    constructor (cfg: Config)
      ensures Valid() && allocs == map[] && this.cfg == cfg
    {
      this.cfg := cfg;
      allocs := map[];
    }

    /** Each flow gets the numbers, and queues the gaps, that a private allocator would. */
    method Next(k: FlowKey, now: int) returns (s: u64)
      requires Valid()
      modifies this, allocs.Values, Queues()
      ensures Valid()
      ensures s == NextAt(cfg, old(Calls(k)))
      ensures Calls(k) == old(Calls(k)) + 1
      ensures forall j :: j != k ==> Calls(j) == old(Calls(j))
      ensures PendingOf(k) == old(PendingOf(k)) + QueuedBy(cfg, old(Calls(k)), now)
      ensures forall j :: j != k ==> PendingOf(j) == old(PendingOf(j))
      ensures allocs.Keys == old(allocs.Keys) + {k}
    {
      hide NextAt;
      hide QueuedBy;
      hide CallEffect;
      hide Allocator.Valid;
      hide Allocator.Pending;
      var a := Find(k);
      s := a.Next(now);
    }

    /** Lines 166-172: the flow's allocator, a new one on first use. */
    method Find(k: FlowKey) returns (a: Allocator)
      requires Valid()
      modifies this`allocs
      ensures Valid() && k in allocs && allocs[k] == a
      ensures a.calls == old(Calls(k)) && a.Pending() == old(PendingOf(k))
      ensures k in old(allocs) ==> allocs == old(allocs)
      ensures k !in old(allocs) ==> allocs == old(allocs)[k := a] && fresh(a) && fresh(a.queue)
    {
      if k in allocs {
        a := allocs[k];
      } else {
        a := new Allocator(cfg);
        allocs := allocs[k := a];
      }
    }
  }
}
