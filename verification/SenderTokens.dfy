/** internal/sender: the token protocol between the dispatcher and the workers, as small atomic steps.
    Every statement below is about every interleaving of those steps. */
module SenderTokens {

  import opened Bytes

  datatype Config = Config(count: nat, workers: nat) {
    /** Run with a Count to reach; Count is a uint64 and New raises Workers to at least one. */
    predicate Valid() {
      0 < count < U64 && workers > 0
    }

    /** The capacity of the token channel. */
    function Cap(): nat {
      2 * workers
    }
  }

  /** What the dispatcher does next; it closes the channel as it leaves. */
  datatype Dispatcher = CheckCtx | Gate | Wait | Send | Add | Left(gated: bool)

  datatype Why = NeverStarted | Canceled | Drained | BuildFailed | ConnClosed

  /** What a worker does next.  Hold: a token received and no verdict yet.  Release: the failure is
      counted and issued.Add(-1) comes next, after which the worker leaves if quits. */
  datatype Worker = Start | Recv | Hold | Release(quits: bool) | Gone(why: Why)

  /** issued, sent, errors and the channel length are the program's; the last four only account for tokens. */
  datatype State = State(
    canceled: bool,
    disp: Dispatcher,
    workers: seq<Worker>,
    queued: nat,
    issued: nat,
    sent: nat,
    errors: nat,
    put: nat,         // tokens ever put into the channel
    released: nat,    // slots given back with issued.Add(-1)
    late: nat,        // ... of those, after the dispatcher had left
    burnt: nat)       // tokens dropped by the ErrClosed return

  datatype Action =
    | Cancel
    | Dispatch                    // the dispatcher's next step, not leaving through ctx.Done
    | SendCanceled                // the select takes runCtx.Done
    | Begin(w: nat, ok: bool)     // dial, open, seed
    | Receive(w: nat)
    | Leave(w: nat)               // the receive finds the channel closed and empty
    | LeaveCanceled(w: nat)
    | Emit(w: nat)
    | Fail(w: nat, quits: bool)   // errors.Add(1) before a release
    | Drop(w: nat)                // write failed with ErrClosed
    | GiveBack(w: nat)            // issued.Add(-1)

  function Init(cfg: Config): State {
    State(false, CheckCtx, seq(cfg.workers, _ => Start), 0, 0, 0, 0, 0, 0, 0, 0)
  }

  predicate Enabled(cfg: Config, s: State, a: Action) {
    match a
    case Cancel => !s.canceled
    case Dispatch => !s.disp.Left? && (s.disp.Send? ==> s.queued < cfg.Cap())
    case SendCanceled => s.disp.Send? && s.canceled
    case Begin(w, _) => w < |s.workers| && s.workers[w].Start?
    case Receive(w) => w < |s.workers| && s.workers[w].Recv? && s.queued > 0
    case Leave(w) => w < |s.workers| && s.workers[w].Recv? && s.queued == 0 && s.disp.Left?
    case LeaveCanceled(w) => w < |s.workers| && s.workers[w].Recv? && s.canceled
    case Emit(w) => w < |s.workers| && s.workers[w].Hold?
    case Fail(w, _) => w < |s.workers| && s.workers[w].Hold?
    case Drop(w) => w < |s.workers| && s.workers[w].Hold?
    case GiveBack(w) => w < |s.workers| && s.workers[w].Release?
  }

  function Word(x: int): nat {
    x % U64
  }

  function DispatchStep(cfg: Config, s: State): State
    requires Enabled(cfg, s, Dispatch)
  {
    match s.disp
    case CheckCtx => s.(disp := if s.canceled then Left(false) else Gate)
    case Gate => s.(disp := if cfg.count > 0 && s.issued >= cfg.count then Left(true) else Wait)
    case Wait => s.(disp := Send)
    case Send => s.(disp := Add, queued := s.queued + 1, put := s.put + 1)
    case Add => s.(disp := CheckCtx, issued := Word(s.issued + 1))
  }

  function Apply(cfg: Config, s: State, a: Action): State
    requires Enabled(cfg, s, a)
  {
    match a
    case Cancel => s.(canceled := true)
    case Dispatch => DispatchStep(cfg, s)
    case SendCanceled => s.(disp := Left(false))
    case Begin(w, ok) => s.(workers := s.workers[w := if ok then Recv else Gone(NeverStarted)])
    case Receive(w) => s.(workers := s.workers[w := Hold], queued := s.queued - 1)
    case Leave(w) => s.(workers := s.workers[w := Gone(Drained)])
    case LeaveCanceled(w) => s.(workers := s.workers[w := Gone(Canceled)])
    case Emit(w) => s.(workers := s.workers[w := Recv], sent := s.sent + 1)
    case Fail(w, quits) => s.(workers := s.workers[w := Release(quits)], errors := s.errors + 1)
    case Drop(w) => s.(workers := s.workers[w := Gone(ConnClosed)], errors := s.errors + 1, burnt := s.burnt + 1)
    case GiveBack(w) =>
      s.(workers := s.workers[w := if s.workers[w].quits then Gone(BuildFailed) else Recv],
         issued := Word(s.issued - 1),
         released := s.released + 1,
         late := if s.disp.Left? then s.late + 1 else s.late)
  }

  predicate Runs(cfg: Config, s: State, acts: seq<Action>)
    decreases |acts|
  {
    acts == [] || (Enabled(cfg, s, acts[0]) && Runs(cfg, Apply(cfg, s, acts[0]), acts[1..]))
  }

  function Exec(cfg: Config, s: State, acts: seq<Action>): State
    requires Runs(cfg, s, acts)
    decreases |acts|
  {
    if acts == [] then s else Exec(cfg, Apply(cfg, s, acts[0]), acts[1..])
  }

  // ---------------------------------------------------------------- sums over the workers

  function Sum(f: Worker -> nat, ws: seq<Worker>): nat {
    if ws == [] then 0 else f(ws[0]) + Sum(f, ws[1..])
  }

  lemma {:induction false} SumUpdate(f: Worker -> nat, ws: seq<Worker>, w: nat, pc: Worker)
    requires w < |ws|
    ensures Sum(f, ws[w := pc]) + f(ws[w]) == Sum(f, ws) + f(pc)
  {
    var us := ws[w := pc];
    if w == 0 {
      assert us[1..] == ws[1..];
    } else {
      assert us[1..] == ws[1..][w - 1 := pc];
      SumUpdate(f, ws[1..], w - 1, pc);
    }
  }

  lemma {:induction false} SumAtLeast(f: Worker -> nat, ws: seq<Worker>, w: nat)
    requires w < |ws|
    ensures Sum(f, ws) >= f(ws[w])
  {
    if w > 0 {
      SumAtLeast(f, ws[1..], w - 1);
    }
  }

  lemma {:induction false} SumZero(f: Worker -> nat, ws: seq<Worker>)
    requires forall w :: 0 <= w < |ws| ==> f(ws[w]) == 0
    ensures Sum(f, ws) == 0
  {
    if ws != [] {
      SumZero(f, ws[1..]);
    }
  }

  /** Tokens in a worker's hands. */
  function Holds(pc: Worker): nat {
    if pc.Hold? || pc.Release? then 1 else 0
  }

  function Failing(pc: Worker): nat {
    if pc.Release? then 1 else 0
  }

  function Burnt(pc: Worker): nat {
    if pc == Gone(ConnClosed) then 1 else 0
  }

  // ---------------------------------------------------------------- the invariant

  /** Every token put is in one place; the counter follows the tokens put and released modulo 2^64,
      one behind while the dispatcher is between the channel send and its Add. */
  ghost predicate Inv(cfg: Config, s: State) {
    Tokens(cfg, s) && Workers(cfg, s)
  }

  ghost predicate Tokens(cfg: Config, s: State) {
    && s.queued <= cfg.Cap()
    && s.put == s.queued + Sum(Holds, s.workers) + s.sent + s.burnt + s.released
    && s.issued == Word(s.put - s.released - (if s.disp.Add? then 1 else 0))
    && s.put - s.released <= cfg.count
    && (s.disp.Wait? || s.disp.Send? ==> s.put - s.released < cfg.count)
    && s.late <= s.released
    && (!s.disp.Left? ==> s.late == 0)
    && (s.disp == Left(true) ==> s.put - (s.released - s.late) == cfg.count)
    && (s.disp == Left(false) ==> s.canceled)
    && s.burnt == Sum(Burnt, s.workers)
    && s.errors == s.released + s.burnt + Sum(Failing, s.workers)
  }

  predicate Workers(cfg: Config, s: State) {
    && |s.workers| == cfg.workers
    && (forall w :: 0 <= w < |s.workers| ==> WorkerInv(s, s.workers[w]))
  }

  predicate WorkerInv(s: State, pc: Worker) {
    && (pc == Gone(Drained) ==> s.disp.Left? && s.queued == 0)
    && (pc == Gone(Canceled) ==> s.canceled)
    && (pc == Gone(BuildFailed) ==> s.released > 0)
  }

  lemma {:induction false} InitInv(cfg: Config)
    requires cfg.Valid()
    ensures Inv(cfg, Init(cfg))
  {
    SumZero(Holds, Init(cfg).workers);
    SumZero(Burnt, Init(cfg).workers);
    SumZero(Failing, Init(cfg).workers);
  }

  /** The three sums after worker w moves to pc. */
  lemma {:induction false} Moves(s: State, w: nat, pc: Worker)
    requires w < |s.workers|
    ensures var ws := s.workers[w := pc];
            && Sum(Holds, ws) + Holds(s.workers[w]) == Sum(Holds, s.workers) + Holds(pc)
            && Sum(Burnt, ws) + Burnt(s.workers[w]) == Sum(Burnt, s.workers) + Burnt(pc)
            && Sum(Failing, ws) + Failing(s.workers[w]) == Sum(Failing, s.workers) + Failing(pc)
    ensures Sum(Holds, s.workers) >= Holds(s.workers[w])
  {
    SumUpdate(Holds, s.workers, w, pc);
    SumUpdate(Burnt, s.workers, w, pc);
    SumUpdate(Failing, s.workers, w, pc);
    SumAtLeast(Holds, s.workers, w);
  }

  lemma {:induction false} GiveBackTokens(cfg: Config, s: State, w: nat)
    requires Inv(cfg, s) && Enabled(cfg, s, GiveBack(w))
    ensures Tokens(cfg, Apply(cfg, s, GiveBack(w)))
  {
    hide Sum;
    hide Workers;
    hide Word;
    Moves(s, w, if s.workers[w].quits then Gone(BuildFailed) else Recv);
    WordBack(s.put - s.released - (if s.disp.Add? then 1 else 0));
  }

  lemma WordBack(x: int)
    ensures Word(Word(x) - 1) == Word(x - 1)
  {
  }

  lemma {:induction false} FailureTokens(cfg: Config, s: State, a: Action)
    requires Inv(cfg, s) && Enabled(cfg, s, a) && (a.Fail? || a.Drop?)
    ensures Tokens(cfg, Apply(cfg, s, a))
  {
    hide Sum;
    hide Workers;
    hide Word;
    match a
    case Fail(w, quits) => Moves(s, w, Release(quits));
    case Drop(w) => Moves(s, w, Gone(ConnClosed));
  }

  lemma {:induction false} DispatchTokens(cfg: Config, s: State)
    requires cfg.Valid() && Inv(cfg, s) && Enabled(cfg, s, Dispatch)
    ensures Tokens(cfg, Apply(cfg, s, Dispatch))
  {
    hide Sum;
    hide Workers;
    hide Word;
    WordSteps(s.put - s.released);
  }

  lemma WordSteps(x: int)
    ensures Word(Word(x - 1) + 1) == Word(x)
    ensures Word(x + 1 - 1) == Word(x)
    ensures 0 <= x < U64 ==> Word(x) == x
  {
  }

  lemma {:induction false} OtherTokens(cfg: Config, s: State, a: Action)
    requires Inv(cfg, s) && Enabled(cfg, s, a) && !(a.Fail? || a.Drop? || a.GiveBack? || a.Dispatch?)
    ensures Tokens(cfg, Apply(cfg, s, a))
  {
    hide Sum;
    hide Workers;
    hide Word;
    match a
    case Cancel =>
    case SendCanceled =>
    case Begin(w, ok) => Moves(s, w, if ok then Recv else Gone(NeverStarted));
    case Receive(w) => Moves(s, w, Hold);
    case Leave(w) => Moves(s, w, Gone(Drained));
    case LeaveCanceled(w) => Moves(s, w, Gone(Canceled));
    case Emit(w) => Moves(s, w, Recv);
  }

  lemma {:induction false} StepWorkers(cfg: Config, s: State, a: Action)
    requires Inv(cfg, s) && Enabled(cfg, s, a)
    ensures Workers(cfg, Apply(cfg, s, a))
  {
    hide Tokens;
  }

  lemma {:induction false} StepInv(cfg: Config, s: State, a: Action)
    requires cfg.Valid() && Inv(cfg, s) && Enabled(cfg, s, a)
    ensures Inv(cfg, Apply(cfg, s, a))
  {
    StepWorkers(cfg, s, a);
    if a.Fail? || a.Drop? {
      FailureTokens(cfg, s, a);
    } else if a.GiveBack? {
      GiveBackTokens(cfg, s, a.w);
    } else if a.Dispatch? {
      DispatchTokens(cfg, s);
    } else {
      OtherTokens(cfg, s, a);
    }
  }

  lemma {:induction false} RunInv(cfg: Config, s: State, acts: seq<Action>)
    requires cfg.Valid() && Inv(cfg, s) && Runs(cfg, s, acts)
    ensures Inv(cfg, Exec(cfg, s, acts))
    decreases |acts|
  {
    if acts != [] {
      hide Inv;
      StepInv(cfg, s, acts[0]);
      RunInv(cfg, Apply(cfg, s, acts[0]), acts[1..]);
    }
  }

  /** The state a run from the start leads to. */
  function After(cfg: Config, acts: seq<Action>): State
    requires Runs(cfg, Init(cfg), acts)
  {
    Exec(cfg, Init(cfg), acts)
  }

  // ---------------------------------------------------------------- safety

  /** Tokens alive, frames sent and tokens burnt never exceed Count, so neither does sent. */
  lemma {:induction false} SentWithinCount(cfg: Config, acts: seq<Action>)
    requires cfg.Valid() && Runs(cfg, Init(cfg), acts)
    ensures var s := After(cfg, acts);
            && s.queued + Sum(Holds, s.workers) + s.sent + s.burnt <= cfg.count
            && s.burnt <= cfg.workers
  {
    InitInv(cfg);
    RunInv(cfg, Init(cfg), acts);
    AtMostOneEach(After(cfg, acts).workers);
  }

  /** The comment at 221-224 made precise: wherever the dispatcher reads issued (and everywhere else but
      between its send and its Add) the counter is exactly the tokens put minus the slots given back. */
  lemma {:induction false} GateReadsExactly(cfg: Config, acts: seq<Action>)
    requires cfg.Valid() && Runs(cfg, Init(cfg), acts)
    ensures var s := After(cfg, acts);
            && s.issued == Word(s.put - s.released - (if s.disp.Add? then 1 else 0))
            && (!s.disp.Add? ==> s.issued == s.put - s.released <= cfg.count)
            && (s.disp.Wait? || s.disp.Send? ==> s.issued < cfg.count)
  {
    InitInv(cfg);
    RunInv(cfg, Init(cfg), acts);
  }

  lemma {:induction false} AtMostOneEach(ws: seq<Worker>)
    ensures Sum(Burnt, ws) <= |ws|
  {
    if ws != [] {
      AtMostOneEach(ws[1..]);
    }
  }

  predicate AllLeft(s: State) {
    s.disp.Left? && forall w :: 0 <= w < |s.workers| ==> s.workers[w].Gone?
  }

  /** Exact accounting of a finished run that was not canceled: Count is what was sent, released too
      late, burnt, or stranded in the channel; nothing is stranded once a worker drained it. */
  lemma {:induction false} FinalAccount(cfg: Config, acts: seq<Action>)
    requires cfg.Valid() && Runs(cfg, Init(cfg), acts)
    ensures var s := After(cfg, acts);
            AllLeft(s) && !s.canceled ==>
              && s.sent + s.late + s.burnt + s.queued == cfg.count
              && ((exists w :: 0 <= w < |s.workers| && s.workers[w] == Gone(Drained)) ==> s.queued == 0)
              && s.errors == s.released + s.burnt
  {
    InitInv(cfg);
    RunInv(cfg, Init(cfg), acts);
    var s := After(cfg, acts);
    if AllLeft(s) {
      SumZero(Holds, s.workers);
      SumZero(Failing, s.workers);
    }
  }

  /** "Still emit exactly Count" (sender.go 436-437) holds exactly when no slot came back after the
      dispatcher had left and no token was burnt; in particular when no worker met an error. */
  lemma {:induction false} ExactlyCount(cfg: Config, acts: seq<Action>)
    requires cfg.Valid() && Runs(cfg, Init(cfg), acts)
    ensures var s := After(cfg, acts);
            AllLeft(s) && !s.canceled && (exists w :: 0 <= w < |s.workers| && s.workers[w] == Gone(Drained)) ==>
              && (s.sent == cfg.count <==> s.late == 0 && s.burnt == 0)
              && (s.errors == 0 ==> s.sent == cfg.count)
  {
    FinalAccount(cfg, acts);
    InitInv(cfg);
    RunInv(cfg, Init(cfg), acts);
  }

  /** The dispatcher has passed its cancellation check and may still put a token. */
  function Committed(s: State): nat {
    if s.disp.Gate? || s.disp.Wait? || s.disp.Send? then 1 else 0
  }

  lemma {:induction false} CanceledBudget(cfg: Config, s: State, acts: seq<Action>)
    requires s.canceled && Runs(cfg, s, acts)
    ensures var s' := Exec(cfg, s, acts); s'.canceled && s'.put + Committed(s') <= s.put + Committed(s)
    decreases |acts|
  {
    if acts != [] {
      CanceledStep(cfg, s, acts[0]);
      hide Enabled;
      hide Apply;
      hide Committed;
      CanceledBudget(cfg, Apply(cfg, s, acts[0]), acts[1..]);
    }
  }

  lemma CanceledStep(cfg: Config, s: State, a: Action)
    requires s.canceled && Enabled(cfg, s, a)
    ensures var s' := Apply(cfg, s, a); s'.canceled && s'.put + Committed(s') <= s.put + Committed(s)
  {
  }

  /** Once the context has ended at most one more token is put, none if the dispatcher had yet to look. */
  lemma {:induction false} CancelStops(cfg: Config, s: State, acts: seq<Action>)
    requires s.canceled && Runs(cfg, s, acts)
    ensures Exec(cfg, s, acts).put <= s.put + 1
    ensures s.disp.CheckCtx? || s.disp.Add? || s.disp.Left? ==> Exec(cfg, s, acts).put == s.put
  {
    CanceledBudget(cfg, s, acts);
    PutGrows(cfg, s, acts);
  }

  lemma {:induction false} PutGrows(cfg: Config, s: State, acts: seq<Action>)
    requires Runs(cfg, s, acts)
    ensures Exec(cfg, s, acts).put >= s.put
    decreases |acts|
  {
    if acts != [] {
      PutGrows(cfg, Apply(cfg, s, acts[0]), acts[1..]);
    }
  }

  // ---------------------------------------------------------------- progress

  /** No goroutine can take a step; cancellation comes from outside and does not count. */
  ghost predicate Stuck(cfg: Config, s: State) {
    forall a: Action :: Enabled(cfg, s, a) ==> a.Cancel?
  }

  /** Every worker has left, the channel is full and the dispatcher waits to send. */
  predicate Hung(cfg: Config, s: State) {
    && !s.canceled && s.disp.Send? && s.queued == cfg.Cap()
    && forall w :: 0 <= w < |s.workers| ==> s.workers[w].Gone?
  }

  /** A run that can go no further has ended, or hangs in that one way. */
  lemma {:induction false} StuckExactly(cfg: Config, acts: seq<Action>)
    requires cfg.Valid() && Runs(cfg, Init(cfg), acts)
    ensures var s := After(cfg, acts);
            Stuck(cfg, s) && !AllLeft(s) <==> Hung(cfg, s)
  {
    InitInv(cfg);
    RunInv(cfg, Init(cfg), acts);
    var s := After(cfg, acts);
    if Stuck(cfg, s) && !AllLeft(s) {
      assert !Enabled(cfg, s, Dispatch) && !Enabled(cfg, s, SendCanceled);
      forall w | 0 <= w < |s.workers|
        ensures s.workers[w].Gone?
      {
        assert !Enabled(cfg, s, Begin(w, true)) && !Enabled(cfg, s, Receive(w)) && !Enabled(cfg, s, Leave(w));
        assert !Enabled(cfg, s, Emit(w)) && !Enabled(cfg, s, GiveBack(w));
      }
    }
  }

  /** Steps left before everyone has to be gone, if no more slots are given back. */
  function Rank(pc: Worker): nat {
    match pc
    case Start => 2
    case Recv => 1
    case Hold => 3
    case Release(_) => 2
    case Gone(_) => 0
  }

  function DispRank(d: Dispatcher): nat {
    match d
    case Add => 6
    case CheckCtx => 5
    case Gate => 4
    case Wait => 3
    case Send => 2
    case Left(_) => 0
  }

  function Measure(cfg: Config, s: State): int {
    8 * (cfg.count - (s.put - s.released)) + DispRank(s.disp) + 3 * s.queued + Sum(Rank, s.workers)
    + (if s.canceled then 0 else 1)
  }

  /** Every step brings the end nearer, except that giving a slot back puts eight steps on. */
  lemma {:induction false} StepMeasure(cfg: Config, s: State, a: Action)
    requires Enabled(cfg, s, a)
    ensures var s' := Apply(cfg, s, a);
            Measure(cfg, s') + 1 <= Measure(cfg, s) + 8 * (s'.released - s.released)
  {
    hide Sum;
    match a
    case Cancel =>
    case Dispatch =>
    case SendCanceled =>
    case Begin(w, ok) => SumUpdate(Rank, s.workers, w, if ok then Recv else Gone(NeverStarted));
    case Receive(w) => SumUpdate(Rank, s.workers, w, Hold);
    case Leave(w) => SumUpdate(Rank, s.workers, w, Gone(Drained));
    case LeaveCanceled(w) => SumUpdate(Rank, s.workers, w, Gone(Canceled));
    case Emit(w) => SumUpdate(Rank, s.workers, w, Recv);
    case Fail(w, quits) => SumUpdate(Rank, s.workers, w, Release(quits));
    case Drop(w) => SumUpdate(Rank, s.workers, w, Gone(ConnClosed));
    case GiveBack(w) => SumUpdate(Rank, s.workers, w, if s.workers[w].quits then Gone(BuildFailed) else Recv);
  }

  lemma {:induction false} RunMeasure(cfg: Config, s: State, acts: seq<Action>)
    requires Runs(cfg, s, acts)
    ensures var s' := Exec(cfg, s, acts);
            Measure(cfg, s') + |acts| <= Measure(cfg, s) + 8 * (s'.released - s.released)
    decreases |acts|
  {
    if acts != [] {
      hide Measure;
      hide Enabled;
      hide Apply;
      StepMeasure(cfg, s, acts[0]);
      RunMeasure(cfg, Apply(cfg, s, acts[0]), acts[1..]);
    }
  }

  lemma {:induction false} InitRank(n: nat)
    ensures Sum(Rank, seq(n, _ => Start)) == 2 * n
  {
    if n > 0 {
      assert seq(n, _ => Start)[1..] == seq(n - 1, _ => Start);
      InitRank(n - 1);
    }
  }

  /** No livelock: a run is never longer than eight steps per frame wanted and slot given back, plus
      the cost of starting and stopping. */
  lemma {:induction false} RunLength(cfg: Config, acts: seq<Action>)
    requires cfg.Valid() && Runs(cfg, Init(cfg), acts)
    ensures |acts| <= 8 * (cfg.count + After(cfg, acts).released) + 2 * cfg.workers + 6
  {
    InitInv(cfg);
    RunInv(cfg, Init(cfg), acts);
    RunMeasure(cfg, Init(cfg), acts);
    InitRank(cfg.workers);
  }

  /** A run without errors, cancellation or failed starts that can go no further has sent exactly Count. */
  lemma {:induction false} ErrorFreeFinish(cfg: Config, acts: seq<Action>)
    requires cfg.Valid() && Runs(cfg, Init(cfg), acts)
    ensures var s := After(cfg, acts);
            Stuck(cfg, s) && !s.canceled && s.errors == 0
            && (exists w :: 0 <= w < |s.workers| && s.workers[w] != Gone(NeverStarted)) ==>
              AllLeft(s) && s.sent == cfg.count
  {
    InitInv(cfg);
    RunInv(cfg, Init(cfg), acts);
    var s := After(cfg, acts);
    if Stuck(cfg, s) && !s.canceled && s.errors == 0 {
      StuckExactly(cfg, acts);
      FinalAccount(cfg, acts);
      forall w | 0 <= w < |s.workers| && s.workers[w] != Gone(NeverStarted)
        ensures s.workers[w] == Gone(Drained)
      {
        SumAtLeast(Burnt, s.workers, w);
        assert Burnt(s.workers[w]) == 0 && s.workers[w].Gone? && WorkerInv(s, s.workers[w]);
        var why := s.workers[w].why;
        assert !why.NeverStarted? && !why.Canceled? && !why.BuildFailed? && !why.ConnClosed?;
      }
    }
  }

  // ---------------------------------------------------------------- runs worth knowing

  /** One more step at the end of a run. */
  lemma {:induction false} Extend(cfg: Config, s: State, acts: seq<Action>, a: Action)
    requires Runs(cfg, s, acts) && Enabled(cfg, Exec(cfg, s, acts), a)
    ensures Runs(cfg, s, acts + [a]) && Exec(cfg, s, acts + [a]) == Apply(cfg, Exec(cfg, s, acts), a)
    decreases |acts|
  {
    hide Enabled;
    hide Apply;
    if acts == [] {
      assert acts + [a] == [a] && [a][1..] == [];
      assert Runs(cfg, Apply(cfg, s, a), []);
    } else {
      Extend(cfg, Apply(cfg, s, acts[0]), acts[1..], a);
      assert (acts + [a])[1..] == acts[1..] + [a];
    }
  }

  lemma {:induction false} Do(cfg: Config, acts: seq<Action>, a: Action) returns (more: seq<Action>)
    requires Runs(cfg, Init(cfg), acts) && Enabled(cfg, After(cfg, acts), a)
    ensures Runs(cfg, Init(cfg), more) && After(cfg, more) == Apply(cfg, After(cfg, acts), a)
  {
    Extend(cfg, Init(cfg), acts, a);
    more := acts + [a];
  }

  /** The dispatcher gets as far as its select. */
  lemma {:induction false} ReachSend(cfg: Config, acts: seq<Action>) returns (more: seq<Action>)
    requires Runs(cfg, Init(cfg), acts)
    requires var s := After(cfg, acts); s.disp.CheckCtx? && !s.canceled && s.issued < cfg.count
    ensures Runs(cfg, Init(cfg), more) && After(cfg, more) == After(cfg, acts).(disp := Send)
  {
    hide Runs;
    hide After;
    more := Do(cfg, acts, Dispatch);
    more := Do(cfg, more, Dispatch);
    more := Do(cfg, more, Dispatch);
  }

  /** ... and once around its loop. */
  lemma {:induction false} IssueOne(cfg: Config, acts: seq<Action>) returns (more: seq<Action>)
    requires cfg.Valid() && Runs(cfg, Init(cfg), acts)
    requires var s := After(cfg, acts);
             s.disp.CheckCtx? && !s.canceled && s.issued < cfg.count && s.queued < cfg.Cap()
    ensures Runs(cfg, Init(cfg), more)
    ensures var s := After(cfg, acts);
            After(cfg, more) == s.(queued := s.queued + 1, put := s.put + 1, issued := s.issued + 1)
  {
    hide Runs;
    hide After;
    more := ReachSend(cfg, acts);
    more := Do(cfg, more, Dispatch);
    more := Do(cfg, more, Dispatch);
  }

  /** The first n - k workers about to start, the last k never started. */
  function Lineup(n: nat, k: nat): seq<Worker> {
    seq(n, i => if i + k < n then Start else Gone(NeverStarted))
  }

  lemma {:induction false} LastFail(cfg: Config, k: nat) returns (acts: seq<Action>)
    requires k <= cfg.workers
    ensures Runs(cfg, Init(cfg), acts) && After(cfg, acts) == Init(cfg).(workers := Lineup(cfg.workers, k))
  {
    if k == 0 {
      acts := [];
      assert Init(cfg).workers == Lineup(cfg.workers, 0);
    } else {
      acts := LastFail(cfg, k - 1);
      hide Runs;
      hide After;
      acts := Do(cfg, acts, Begin(cfg.workers - k, false));
      assert Lineup(cfg.workers, k - 1)[cfg.workers - k := Gone(NeverStarted)] == Lineup(cfg.workers, k);
    }
  }

  // ---------------------------------------------------------------- the hang

  /** Nobody to receive, q tokens in the channel. */
  function Unserved(cfg: Config, q: nat): State {
    Init(cfg).(workers := Lineup(cfg.workers, cfg.workers), queued := q, put := q, issued := q)
  }

  lemma {:induction false} Fill(cfg: Config, q: nat) returns (acts: seq<Action>)
    requires cfg.Valid() && q <= cfg.Cap() <= cfg.count
    ensures Runs(cfg, Init(cfg), acts) && After(cfg, acts) == Unserved(cfg, q)
  {
    if q == 0 {
      acts := LastFail(cfg, cfg.workers);
    } else {
      acts := Fill(cfg, q - 1);
      hide Runs;
      hide After;
      acts := IssueOne(cfg, acts);
    }
  }

  /** Whether a run can hang is settled by its configuration: it can exactly when Count exceeds the channel's
      capacity of twice the workers. */
  lemma {:induction false} HangsExactly(cfg: Config)
    requires cfg.Valid()
    ensures (exists acts :: Runs(cfg, Init(cfg), acts) && Hung(cfg, After(cfg, acts))) <==> cfg.count > 2 * cfg.workers
  {
    if cfg.count > cfg.Cap() {
      var acts := Fill(cfg, cfg.Cap());
      hide Runs;
      hide After;
      acts := ReachSend(cfg, acts);
      assert Hung(cfg, After(cfg, acts));
    }
    forall acts | Runs(cfg, Init(cfg), acts) && Hung(cfg, After(cfg, acts))
      ensures cfg.count > cfg.Cap()
    {
      InitInv(cfg);
      RunInv(cfg, Init(cfg), acts);
    }
  }

  // ---------------------------------------------------------------- a counter below zero and a slot lost

  /** With any Count and any number of workers, issued can be 2^64 - 1: the first token is received,
      fails and is given back between the dispatcher's channel send and its issued.Add(1). */
  lemma {:induction false} IssuedWrapsBelowZero(cfg: Config) returns (acts: seq<Action>)
    requires cfg.Valid()
    ensures Runs(cfg, Init(cfg), acts) && After(cfg, acts).issued == U64 - 1
  {
    acts := [];
    assert After(cfg, acts) == Init(cfg);
    hide Runs;
    hide After;
    acts := Do(cfg, acts, Begin(0, true));
    acts := ReachSend(cfg, acts);
    acts := Do(cfg, acts, Dispatch);
    acts := Do(cfg, acts, Receive(0));
    acts := Do(cfg, acts, Fail(0, false));
    acts := Do(cfg, acts, GiveBack(0));
  }

  /** The first worker as given, the others never started. */
  function Alone(cfg: Config, first: Worker): seq<Worker>
    requires cfg.workers > 0
  {
    Lineup(cfg.workers, cfg.workers - 1)[0 := first]
  }

  /** A single worker has sent k frames. */
  function Served(cfg: Config, k: nat): State
    requires cfg.workers > 0
  {
    Init(cfg).(workers := Alone(cfg, Recv), put := k, issued := k, sent := k)
  }

  lemma {:induction false} Serve(cfg: Config, k: nat) returns (acts: seq<Action>)
    requires cfg.Valid() && k < cfg.count
    ensures Runs(cfg, Init(cfg), acts) && After(cfg, acts) == Served(cfg, k)
  {
    if k == 0 {
      acts := LastFail(cfg, cfg.workers - 1);
      hide Runs;
      hide After;
      acts := Do(cfg, acts, Begin(0, true));
    } else {
      acts := Serve(cfg, k - 1);
      hide Runs;
      hide After;
      hide Lineup;
      acts := IssueOne(cfg, acts);
      acts := Do(cfg, acts, Receive(0));
      acts := Do(cfg, acts, Emit(0));
      assert Alone(cfg, Recv)[0 := Hold][0 := Recv] == Alone(cfg, Recv);
    }
  }

  /** The promise of sender.go 436-437 fails for every Count and every number of workers, and without any
      cancellation: one write error after the dispatcher has left, and the run ends one frame short. */
  lemma {:induction false} LateReleaseLosesTheSlot(cfg: Config) returns (acts: seq<Action>)
    requires cfg.Valid()
    ensures Runs(cfg, Init(cfg), acts)
    ensures var s := After(cfg, acts);
            && AllLeft(s) && !s.canceled && (exists w :: 0 <= w < |s.workers| && s.workers[w] == Gone(Drained))
            && s.sent == cfg.count - 1 && s.late == 1 && s.errors == 1
  {
    acts := Serve(cfg, cfg.count - 1);
    hide Runs;
    hide After;
    acts := IssueOne(cfg, acts);
    acts := Do(cfg, acts, Dispatch);
    acts := Do(cfg, acts, Dispatch);
    acts := Do(cfg, acts, Receive(0));
    acts := Do(cfg, acts, Fail(0, false));
    acts := Do(cfg, acts, GiveBack(0));
    acts := Do(cfg, acts, Leave(0));
    assert After(cfg, acts).workers[0] == Gone(Drained);
  }
}
