/** PerFlowAllocator under concurrency: many flows, each with the atomic steps of SeqRuns on its own
    allocator, interleaved in any way. */
module FlowRuns {
  import opened SeqAlloc
  import opened SeqRuns

  /** One atomic step of a call for flow k; the map lookup that precedes it holds the mutex. */
  datatype FlowAction = On(k: FlowKey, a: Action)

  type Flows = map<FlowKey, State>

  /** A flow seen for the first time gets a fresh allocator. */
  function StateOf(cfg: Config, n: nat, fs: Flows, k: FlowKey): State {
    if k in fs then fs[k] else Init(cfg, n)
  }

  predicate FlowEnabled(cfg: Config, n: nat, fs: Flows, x: FlowAction) {
    Enabled(cfg, StateOf(cfg, n, fs, x.k), x.a)
  }

  function FlowApply(cfg: Config, n: nat, fs: Flows, x: FlowAction): Flows
    requires FlowEnabled(cfg, n, fs, x)
  {
    fs[x.k := Apply(cfg, StateOf(cfg, n, fs, x.k), x.a)]
  }

  predicate FlowsRun(cfg: Config, n: nat, fs: Flows, xs: seq<FlowAction>)
    decreases |xs|
  {
    xs == [] || (FlowEnabled(cfg, n, fs, xs[0]) && FlowsRun(cfg, n, FlowApply(cfg, n, fs, xs[0]), xs[1..]))
  }

  function FlowsExec(cfg: Config, n: nat, fs: Flows, xs: seq<FlowAction>): Flows
    requires FlowsRun(cfg, n, fs, xs)
    decreases |xs|
  {
    if xs == [] then fs else FlowsExec(cfg, n, FlowApply(cfg, n, fs, xs[0]), xs[1..])
  }

  /** The steps of one flow, in order. */
  function Only(k: FlowKey, xs: seq<FlowAction>): seq<Action> {
    if xs == [] then []
    else if xs[0].k == k then [xs[0].a] + Only(k, xs[1..])
    else Only(k, xs[1..])
  }

  /** Flows do not interfere: what a flow's allocator does is a run of that allocator on the flow's own
      steps, whatever the other flows do in between. */
  lemma {:induction false} FlowsIndependent(cfg: Config, n: nat, fs: Flows, xs: seq<FlowAction>, k: FlowKey)
    requires FlowsRun(cfg, n, fs, xs)
    ensures Runs(cfg, StateOf(cfg, n, fs, k), Only(k, xs))
    ensures StateOf(cfg, n, FlowsExec(cfg, n, fs, xs), k) == Exec(cfg, StateOf(cfg, n, fs, k), Only(k, xs))
    decreases |xs|
  {
    if xs != [] {
      hide Enabled;
      hide Apply;
      FlowsIndependent(cfg, n, FlowApply(cfg, n, fs, xs[0]), xs[1..], k);
      if xs[0].k == k {
        assert Only(k, xs)[1..] == Only(k, xs[1..]);
      }
    }
  }

  /** So within each flow no number is ever handed out twice, and a flow at rest has used up numbers that
      depend on the count of its own calls alone. */
  lemma {:induction false} FlowNumbers(cfg: Config, n: nat, xs: seq<FlowAction>, k: FlowKey)
    requires FlowsRun(cfg, n, map[], xs)
    ensures var s := StateOf(cfg, n, FlowsExec(cfg, n, map[], xs), k);
            && (forall i, j :: 0 <= i < j < |s.returned + s.resent| ==> (s.returned + s.resent)[i] != (s.returned + s.resent)[j])
            && ((forall t :: 0 <= t < |s.threads| ==> s.threads[t].Idle?) ==>
                  s.next == cfg.First() + |s.returned|
                            + (if cfg.GapEnabled() then cfg.gapSize * (|s.returned| / cfg.gapEvery) else 0))
  {
    FlowsIndependent(cfg, n, map[], xs, k);
    NeverTwice(cfg, n, Only(k, xs));
    QuiescentNext(cfg, n, Only(k, xs));
  }
}
