/** Every run of the copy engine: how much it can do at most, and that it returns if no party is
    kept waiting for ever. */
module CopyLiveness {
  import opened FileSystem
  import opened CopyEngine
  import opened CopyInvariants
  import opened WalkerSteps
  import opened AioSteps
  import opened CopyTheorems
  import opened CopyProgress

  // ----- longer runs -----

  lemma ReachableOn(job: Job, s: State, b: seq<Action>)
    requires Reachable(job, s) && Runs(job, s, b)
    ensures Reachable(job, After(job, s, b))
  {
    hide Runs, After;
    var a :| Runs(job, Init(job), a) && After(job, Init(job), a) == s;
    RunsAppend(job, Init(job), a, b);
  }

  /** Where sizes and kinds of files allow it, all goes well: from any reachable state the copy can
      be completed, and wherever a run completes it, the destination equals the source. */
  lemma AlwaysFaithful(job: Job, s: State)
    requires ValidJob(job) && FitsInt(job) && Reachable(job, s)
    ensures !s.crashed
    ensures exists acts :: Runs(job, s, acts) && After(job, s, acts).wpc == Returned
    ensures forall acts :: Runs(job, s, acts) && After(job, s, acts).wpc == Returned ==>
              SameTree(job, After(job, s, acts).fs)
  {
    hide ValidJob, FitsInt, GoodTree, Reachable, Runs, After, SameTree;
    FitsIntIsGood(job);
    NeverCrashes(job, s);
    CanAlwaysFinish(job, s);
    forall acts | Runs(job, s, acts) && After(job, s, acts).wpc == Returned
      ensures SameTree(job, After(job, s, acts).fs)
    {
      ReachableOn(job, s, acts);
      NeverCrashes(job, After(job, s, acts));
      FaithfulIff(job, After(job, s, acts));
    }
  }

  // ----- what a run can do -----

  /** What one action does: a step of the walker and a completion count as one, a section of the
      AIO loop as the events it delivers and the requests it submits. */
  function Deeds(job: Job, s: State, a: Action): nat {
    match a
    case WalkerMoves(_) => 1
    case AioMoves(n) => Progress(job, s, n)
    case KernelFinishes(_) => 1
  }

  ghost function AllDeeds(job: Job, s: State, acts: seq<Action>): nat
    requires Runs(job, s, acts)
    decreases |acts|
  {
    if acts == [] then 0 else Deeds(job, s, acts[0]) + AllDeeds(job, Step(job, s, acts[0]), acts[1..])
  }

  /** What submissions, completions and deliveries have brought about. */
  function Effect(s: State): int {
    |s.inflight| + 2 * |s.completed| + 3 * s.delivered
  }

  lemma AioEffect(job: Job, s: State, n: nat)
    requires ValidJob(job) && Inv(job, s) && !s.crashed && AioEnabled(s, n) && !AioStep(job, s, n).crashed
    ensures Effect(AioStep(job, s, n)) == Effect(s) + Progress(job, s, n)
  {
    hide Inv, ValidJob, Drain, SubmitReads, SubmitWrites, Work;
    CountFacts(job, s);
    match s.apc
    case Draining => DrainWork(job, s, n);
    case Reading => SubmitReadsWork(s, Progress(job, s, n));
    case Writing => SubmitWritesWork(s, Progress(job, s, n));
    case _ =>
  }

  lemma WalkerEffect(s: State, order: seq<DirEnt>)
    ensures Effect(WalkerStep(s, order)) == Effect(s)
  {
  }

  /** Every deed either takes a step off the walker's way or adds to the effect. */
  lemma DeedCounts(job: Job, s: State, a: Action)
    requires ValidJob(job) && Inv(job, s) && Enabled(s, a) && !Step(job, s, a).crashed
    ensures var s' := Step(job, s, a);
            WalkLeft(job, s') + Deeds(job, s, a) - Effect(s') <= WalkLeft(job, s) - Effect(s)
  {
    hide Inv, ValidJob, WalkerStep, AioStep, Unhandled, WalkerEnabled, AioEnabled;
    match a
    case WalkerMoves(order) =>
      WalkerTerminates(job, s, order);
      WalkerEffect(s, order);
    case AioMoves(n) =>
      AioWork(job, s, n);
      AioEffect(job, s, n);
    case KernelFinishes(i) =>
  }

  lemma {:induction false} DeedsCount(job: Job, s: State, acts: seq<Action>)
    requires ValidJob(job) && Inv(job, s) && Runs(job, s, acts) && !After(job, s, acts).crashed
    ensures var s' := After(job, s, acts);
            WalkLeft(job, s') + AllDeeds(job, s, acts) - Effect(s') <= WalkLeft(job, s) - Effect(s)
    decreases |acts|
  {
    hide Inv, ValidJob, Step, Enabled, Effect, WalkLeft, Deeds;
    if acts != [] {
      var s' := Step(job, s, acts[0]);
      CrashSticks(job, s', acts[1..]);
      DeedCounts(job, s, acts[0]);
      StepKeeps(job, s, acts[0]);
      DeedsCount(job, s', acts[1..]);
    }
  }

  lemma {:induction false} WritesBound(rs: seq<Request>)
    ensures Writes(rs) <= |rs|
  {
    if rs != [] { WritesBound(rs[1..]); }
  }

  /** No file has more than two submissions, two completions and two deliveries. */
  lemma EffectBound(job: Job, s: State)
    requires ValidJob(job) && Inv(job, s)
    ensures Effect(s) <= 6 * |RegularFiles(job)|
  {
    hide WalkInv, FsInv, ReqInv, FlushInv, ValidJob, Names, Writes;
    WritesBound(s.inflight);
    WritesBound(Requests(s.completed));
    NamesSize(s.readList);
    NamesSize(s.inflight);
    NamesSize(Requests(s.completed));
    NamesSize(s.writeList);
    NamesSize(s.finished);
    assert |Pool(s)| == s.requestCount;
    Subset(Added(job, s.visited), RegularFiles(job));
  }

  lemma Subset(a: set<string>, b: set<string>)
    requires a <= b
    ensures |a| <= |b|
  {
    if a != {} {
      var x :| x in a;
      Subset(a - {x}, b - {x});
    }
  }

  /** A bound for every run, however it is scheduled: steps of the walker, completions, deliveries
      and submissions together. */
  lemma DeedsBounded(job: Job, acts: seq<Action>)
    requires ValidJob(job) && Runs(job, Init(job), acts) && !After(job, Init(job), acts).crashed
    ensures AllDeeds(job, Init(job), acts) <= 2 * |SourceNames(job)| + 3 + 6 * |RegularFiles(job)|
  {
    hide Inv, ValidJob, Runs, After, AllDeeds;
    var s := After(job, Init(job), acts);
    InitInv(job);
    DeedsCount(job, Init(job), acts);
    assert Reachable(job, s);
    ReachableInv(job, s);
    EffectBound(job, s);
    assert Unhandled(job, {}) == SourceNames(job);
  }

  function SourceNames(job: Job): set<string> {
    set k | k in job.fs && InSource(job, k)
  }

  // ----- fair runs -----

  /** Nothing can move exactly when the copy has returned or the process has ended with an error. */
  lemma StuckIsOver(job: Job, s: State)
    requires ValidJob(job) && Reachable(job, s)
    ensures (forall a :: !Enabled(s, a)) <==> s.crashed || s.wpc == Returned
  {
    hide ValidJob, Reachable;
    if !s.crashed {
      ReachableInv(job, s);
      if s.wpc == Returned {
        assert s.apc == Exited && s.inflight == [];
      } else if s.apc != Exited {
        assert Enabled(s, AioMoves(0));
      } else {
        assert s.wpc == Joining;
        assert Enabled(s, WalkerMoves([]));
      }
    }
  }

  ghost predicate StepAt(job: Job, st: nat -> State, act: nat -> Action, i: nat) {
    Enabled(st(i), act(i)) && st(i + 1) == Step(job, st(i), act(i))
  }

  /** A run without an end: in state `st(i)` the action `act(i)` is taken. */
  ghost predicate RunsForever(job: Job, st: nat -> State, act: nat -> Action) {
    st(0) == Init(job) && forall i: nat {:trigger StepAt(job, st, act, i)} :: StepAt(job, st, act, i)
  }

  ghost predicate WalkerReady(s: State) {
    exists order :: WalkerEnabled(s, order)
  }

  ghost predicate ReadyFrom(st: nat -> State, n: nat) {
    exists i :: i >= n && WalkerReady(st(i))
  }

  ghost predicate MovesFrom(act: nat -> Action, n: nat) {
    exists i :: i >= n && act(i).WalkerMoves?
  }

  /** The walker, if it can move again and again, in the end does: mutexes are granted. */
  ghost predicate FairToWalker(st: nat -> State, act: nat -> Action) {
    (forall n :: ReadyFrom(st, n)) ==> forall n :: MovesFrom(act, n)
  }

  ghost predicate InFlightFrom(st: nat -> State, n: nat) {
    forall i :: i >= n ==> st(i).inflight != []
  }

  ghost predicate FinishesFrom(act: nat -> Action, n: nat) {
    exists i :: i >= n && act(i).KernelFinishes?
  }

  /** The kernel does not sit on its requests for ever. */
  ghost predicate FairToRequests(st: nat -> State, act: nat -> Action) {
    forall n :: InFlightFrom(st, n) ==> FinishesFrom(act, n)
  }

  ghost predicate CompletedFrom(st: nat -> State, n: nat) {
    forall i :: i >= n ==> st(i).completed != []
  }

  ghost predicate DeliversFrom(st: nat -> State, act: nat -> Action, n: nat) {
    exists i :: i >= n && st(i).apc == Draining && act(i).AioMoves? && act(i).n > 0
  }

  /** Nor does it hold back completed events for ever. */
  ghost predicate FairToEvents(st: nat -> State, act: nat -> Action) {
    forall n :: CompletedFrom(st, n) ==> DeliversFrom(st, act, n)
  }

  ghost predicate Fair(st: nat -> State, act: nat -> Action) {
    FairToWalker(st, act) && FairToRequests(st, act) && FairToEvents(st, act)
  }

  lemma {:induction false} PrefixReachable(job: Job, st: nat -> State, act: nat -> Action, i: nat)
    requires RunsForever(job, st, act)
    ensures Reachable(job, st(i))
    decreases i
  {
    hide Enabled, Step;
    if i == 0 {
      assert Runs(job, Init(job), []) && After(job, Init(job), []) == st(0);
    } else {
      PrefixReachable(job, st, act, i - 1);
      assert StepAt(job, st, act, i - 1);
      var s, a := st(i - 1), act(i - 1);
      assert [a][1..] == [] && Runs(job, Step(job, s, a), []);
      assert Runs(job, s, [a]) && After(job, s, [a]) == After(job, Step(job, s, a), []) == st(i);
      ReachableOn(job, s, [a]);
    }
  }

  /** What is left to do, and to bring about. */
  function Left(job: Job, s: State): int {
    WalkLeft(job, s) + 6 * |RegularFiles(job)| - Effect(s)
  }

  lemma LeftFalls(job: Job, st: nat -> State, act: nat -> Action, i: nat)
    requires ValidJob(job) && RunsForever(job, st, act)
    ensures Inv(job, st(i)) && !st(i).crashed && Enabled(st(i), act(i))
    ensures st(i + 1) == Step(job, st(i), act(i))
    ensures 0 <= Left(job, st(i + 1)) <= Left(job, st(i)) - Deeds(job, st(i), act(i))
  {
    hide ValidJob, Inv, Step, Enabled, Effect, WalkLeft, Deeds, Reachable;
    PrefixReachable(job, st, act, i);
    PrefixReachable(job, st, act, i + 1);
    assert StepAt(job, st, act, i) && StepAt(job, st, act, i + 1);
    StillRunning(st(i), act(i));
    StillRunning(st(i + 1), act(i + 1));
    ReachableInv(job, st(i));
    ReachableInv(job, st(i + 1));
    DeedCounts(job, st(i), act(i));
    EffectBound(job, st(i + 1));
  }

  /** From `n` on nothing is done but to go round the AIO loop. */
  ghost predicate IdleFrom(job: Job, st: nat -> State, act: nat -> Action, n: nat) {
    forall i {:trigger act(i)} :: i >= n ==> Deeds(job, st(i), act(i)) == 0
  }

  lemma {:induction false} BecomesIdle(job: Job, st: nat -> State, act: nat -> Action, n: nat) returns (m: nat)
    requires ValidJob(job) && RunsForever(job, st, act)
    ensures IdleFrom(job, st, act, m)
    decreases Left(job, st(n)) + 1
  {
    hide ValidJob, RunsForever, Inv, Step, Enabled, Left, Deeds;
    LeftFalls(job, st, act, n);
    if i :| i >= n && Deeds(job, st(i), act(i)) != 0 {
      LeftShrinks(job, st, act, n, i);
      LeftFalls(job, st, act, i);
      m := BecomesIdle(job, st, act, i + 1);
    } else {
      m := n;
    }
  }

  lemma {:induction false} LeftShrinks(job: Job, st: nat -> State, act: nat -> Action, n: nat, i: nat)
    requires ValidJob(job) && RunsForever(job, st, act) && n <= i
    ensures Left(job, st(i)) <= Left(job, st(n))
    decreases i
  {
    hide ValidJob, RunsForever, Inv, Step, Enabled, Left, Deeds;
    if n < i {
      LeftShrinks(job, st, act, n, i - 1);
      LeftFalls(job, st, act, i - 1);
    }
  }

  function NextSection(pc: AioPc): AioPc {
    match pc
    case Locking => Draining
    case Draining => Testing
    case Testing => Reading
    case Reading => Writing
    case Writing => Unlocking
    case Unlocking => Locking
    case Exited => Exited
  }

  /** An idle turn moves the AIO thread one section on, and nothing else. */
  lemma IdleTurn(job: Job, st: nat -> State, act: nat -> Action, n: nat, i: nat)
    requires ValidJob(job) && RunsForever(job, st, act) && IdleFrom(job, st, act, n) && n <= i
    ensures act(i).AioMoves? && st(i).apc != Exited
    ensures st(i + 1) == st(i).(apc := NextSection(st(i).apc))
  {
    hide ValidJob, RunsForever, Inv, Left;
    LeftFalls(job, st, act, i);
    LeftFalls(job, st, act, i + 1);
    assert Deeds(job, st(i), act(i)) == 0 && Deeds(job, st(i + 1), act(i + 1)) == 0;
    IdleSection(job, st(i), act(i).n);
  }

  lemma {:induction false} IdleState(job: Job, st: nat -> State, act: nat -> Action, n: nat, i: nat)
    requires ValidJob(job) && RunsForever(job, st, act) && IdleFrom(job, st, act, n) && n <= i
    ensures st(i) == st(n).(apc := st(i).apc)
    decreases i
  {
    hide ValidJob, RunsForever, IdleFrom, NextSection;
    if n < i {
      IdleState(job, st, act, n, i - 1);
      IdleTurn(job, st, act, n, i - 1);
    }
  }

  /** How many turns it takes to `Unlocking`. */
  function TurnsToUnlock(pc: AioPc): nat {
    match pc
    case Locking => 5
    case Draining => 4
    case Testing => 3
    case Reading => 2
    case Writing => 1
    case Unlocking => 0
    case Exited => 0
  }

  lemma {:induction false} ReachesUnlock(job: Job, st: nat -> State, act: nat -> Action, n: nat, i: nat)
    returns (j: nat)
    requires ValidJob(job) && RunsForever(job, st, act) && IdleFrom(job, st, act, n) && n <= i
    ensures i <= j && st(j).apc == Unlocking && st(j + 1).apc == Locking
    decreases TurnsToUnlock(st(i).apc)
  {
    hide ValidJob, RunsForever, IdleFrom;
    IdleTurn(job, st, act, n, i);
    if st(i).apc == Unlocking {
      j := i;
    } else {
      j := ReachesUnlock(job, st, act, n, i + 1);
    }
  }

  /** As long as the walker has something to do, or waits for the flush mutex, it gets its turn. */
  lemma WalkerNotIdle(job: Job, st: nat -> State, act: nat -> Action, n: nat)
    requires ValidJob(job) && RunsForever(job, st, act) && IdleFrom(job, st, act, n)
    requires st(n).wpc == Walking || st(n).wpc == Adding || st(n).wpc == Flushing
    ensures !FairToWalker(st, act)
  {
    hide ValidJob, RunsForever, IdleFrom, IsListing, WalkerReady;
    forall m ensures ReadyFrom(st, m) {
      var j := ReachesUnlock(job, st, act, n, n + m);
      IdleState(job, st, act, n, j + 1);
      ReadyAtLocking(st(j + 1));
    }
    assert !MovesFrom(act, n) by {
      forall i | i >= n ensures !act(i).WalkerMoves? {
        IdleTurn(job, st, act, n, i);
      }
    }
  }

  lemma ReadyAtLocking(s: State)
    requires s.apc == Locking && (s.wpc == Walking || s.wpc == Adding || s.wpc == Flushing)
    ensures WalkerReady(s)
  {
    var order := [];
    if s.wpc == Walking && s.queue != [] {
      order := SomeListing(s.fs[s.queue[0].dst := Dir], s.queue[0].src, false);
    }
    assert WalkerEnabled(s, order);
  }

  /** After the flush something is in flight or completed for as long as the loop goes round. */
  lemma SomethingThere(job: Job, st: nat -> State, act: nat -> Action, n: nat)
    requires ValidJob(job) && RunsForever(job, st, act) && IdleFrom(job, st, act, n)
    requires st(n).wpc == Joining
    ensures InFlightFrom(st, n) || CompletedFrom(st, n)
  {
    hide ValidJob, RunsForever, IdleFrom, Inv, Reachable;
    var j := ReachesUnlock(job, st, act, n, n);
    IdleState(job, st, act, n, j);
    PrefixReachable(job, st, act, j);
    LeftFalls(job, st, act, j);
    ReachableInv(job, st(j));
    PcFacts(job, st(j));
    NeverWaitsOnNothing(job, st(j));
    forall i | i >= n ensures st(i).inflight == st(n).inflight && st(i).completed == st(n).completed {
      IdleState(job, st, act, n, i);
    }
  }

  /** And the kernel gets its turn. */
  lemma KernelNotIdle(job: Job, st: nat -> State, act: nat -> Action, n: nat)
    requires ValidJob(job) && RunsForever(job, st, act) && IdleFrom(job, st, act, n)
    requires st(n).wpc == Joining
    ensures !(FairToRequests(st, act) && FairToEvents(st, act))
  {
    hide ValidJob, RunsForever, InFlightFrom, CompletedFrom;
    SomethingThere(job, st, act, n);
    assert !FinishesFrom(act, n) && !DeliversFrom(st, act, n) by {
      forall i | i >= n ensures act(i).AioMoves? && (st(i).apc == Draining ==> act(i).n == 0) {
        IdleTurn(job, st, act, n, i);
        assert Deeds(job, st(i), act(i)) == 0;
      }
    }
  }

  /** No fair run goes on for ever, whatever the tree: since none gets stuck before, every fair run
      comes to the return or to an error. */
  lemma FairRunsReturn(job: Job, st: nat -> State, act: nat -> Action)
    requires ValidJob(job) && RunsForever(job, st, act)
    ensures !Fair(st, act)
  {
    hide ValidJob, RunsForever, Inv, FairToWalker, FairToRequests, FairToEvents, IdleFrom;
    var n := BecomesIdle(job, st, act, 0);
    match st(n).wpc
    case Joining => KernelNotIdle(job, st, act, n);
    case Returned =>
      IdleTurn(job, st, act, n, n);
      LeftFalls(job, st, act, n);
      ReturnedIsExited(job, st(n));
    case _ => WalkerNotIdle(job, st, act, n);
  }

  lemma ReturnedIsExited(job: Job, s: State)
    requires Inv(job, s)
    ensures s.wpc == Returned ==> s.apc == Exited
  {
  }
}
