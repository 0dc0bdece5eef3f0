/** Progress of the copy engine: the work left never grows once the flag is up, the AIO thread
    never waits on nothing, and from every reachable state the copy can be completed. */
module CopyProgress {
  import opened FileSystem
  import opened CopyEngine
  import opened CopyInvariants
  import opened WalkerSteps
  import opened AioSteps
  import opened CopyTheorems

  // ----- the work left -----

  /** A submitted read still needs its completion, a write and that one's completion; a submitted
      write needs its completion only. */
  function FlightWork(rs: seq<Request>): nat {
    if rs == [] then 0 else (if rs[0].state == 2 then 1 else 3) + FlightWork(rs[1..])
  }

  function Work(s: State): nat {
    4 * |s.readList| + FlightWork(s.inflight) + FlightWork(Requests(s.completed)) + 2 * |s.writeList|
  }

  lemma FlightConcat(a: seq<Request>, b: seq<Request>)
    ensures FlightWork(a + b) == FlightWork(a) + FlightWork(b)
  {
    if a == [] {
      assert a + b == b;
    } else {
      assert (a + b)[1..] == a[1..] + b;
      FlightConcat(a[1..], b);
    }
  }

  lemma FlightPush(a: seq<Request>, r: Request)
    ensures FlightWork(a + [r]) == FlightWork(a) + (if r.state == 2 then 1 else 3)
  {
    FlightConcat(a, [r]);
    assert [r][1..] == [];
  }

  lemma FlightRemove(a: seq<Request>, i: nat)
    requires i < |a|
    ensures FlightWork(a) == FlightWork(a[..i] + a[i + 1..]) + (if a[i].state == 2 then 1 else 3)
  {
    var tail := a[i..];
    assert a == a[..i] + tail;
    assert tail[1..] == a[i + 1..];
    FlightConcat(a[..i], tail);
    FlightConcat(a[..i], a[i + 1..]);
  }

  lemma DrainOneWork(job: Job, s: State)
    requires Inv(job, s) && s.completed != []
    ensures Work(DrainOne(s)) == Work(s) - 1
  {
    assert CompletedOk(job, s.fs, s.visited, s.completed[0]);
    RequestsParts(s.completed, s.completed[0]);
    assert Requests(s.completed)[0] == s.completed[0].req;
  }

  lemma DrainOneFrame(s: State)
    requires s.completed != []
    ensures DrainOne(s).delivered == s.delivered + 1 && DrainOne(s).completed == s.completed[1..]
    ensures DrainOne(s).wpc == s.wpc && DrainOne(s).flush == s.flush && DrainOne(s).inflight == s.inflight
    ensures DrainOne(s).visited == s.visited
  {
  }

  lemma {:induction false} DrainWork(job: Job, s: State, n: nat)
    requires Inv(job, s) && !s.crashed && s.apc == Draining && n <= |s.completed|
    ensures Work(Drain(s, n)) == Work(s) - n
    ensures Drain(s, n).delivered == s.delivered + n
    ensures Drain(s, n).wpc == s.wpc && Drain(s, n).flush == s.flush && Drain(s, n).inflight == s.inflight
    ensures Drain(s, n).visited == s.visited && |Drain(s, n).completed| == |s.completed| - n
    decreases n
  {
    hide Inv, Work, DrainOne;
    if n != 0 {
      DrainOneKeeps(job, s);
      DrainOneWork(job, s);
      DrainOneFrame(s);
      DrainWork(job, DrainOne(s), n - 1);
    }
  }

  lemma {:induction false} SubmitReadsWork(s: State, n: nat)
    requires n <= |s.readList| && !s.crashed && !SubmitReads(s, n).crashed
    ensures Work(SubmitReads(s, n)) == Work(s) - n
    ensures SubmitReads(s, n).delivered == s.delivered
    ensures SubmitReads(s, n).wpc == s.wpc && SubmitReads(s, n).flush == s.flush
    ensures SubmitReads(s, n).visited == s.visited && SubmitReads(s, n).completed == s.completed
    ensures n == 0 ==> SubmitReads(s, n) == s
    ensures |SubmitReads(s, n).inflight| == |s.inflight| + n
    decreases n
  {
    hide FlightWork;
    if n != 0 {
      var s' := SubmitReadOne(s);
      FlightPush(s.inflight, s'.inflight[|s.inflight|]);
      SubmitReadsWork(s', n - 1);
    }
  }

  lemma {:induction false} SubmitWritesWork(s: State, n: nat)
    requires n <= |s.writeList| && !s.crashed && !SubmitWrites(s, n).crashed
    ensures Work(SubmitWrites(s, n)) == Work(s) - n
    ensures SubmitWrites(s, n).delivered == s.delivered
    ensures SubmitWrites(s, n).wpc == s.wpc && SubmitWrites(s, n).flush == s.flush
    ensures SubmitWrites(s, n).visited == s.visited && SubmitWrites(s, n).completed == s.completed
    ensures n == 0 ==> SubmitWrites(s, n) == s
    ensures |SubmitWrites(s, n).inflight| == |s.inflight| + n
    decreases n
  {
    hide FlightWork;
    if n != 0 {
      var s' := SubmitWriteOne(s);
      FlightPush(s.inflight, s'.inflight[|s.inflight|]);
      SubmitWritesWork(s', n - 1);
    }
  }

  lemma KernelWork(job: Job, s: State, i: nat)
    requires ValidJob(job) && Inv(job, s) && i < |s.inflight|
    ensures Work(KernelStep(s, i)) == Work(s)
  {
    var r := s.inflight[i];
    var e := Finish(s.fs, r).1;
    FlightRemove(s.inflight, i);
    RequestsParts(s.completed, e);
    FlightPush(Requests(s.completed), e.req);
  }

  /** What one section of the AIO loop takes off the work left. */
  function Progress(job: Job, s: State, n: nat): nat {
    match s.apc
    case Draining => n
    case Reading => AtLeast0(BatchSize(s.flush, s.readLen, job.readBatch))
    case Writing => AtLeast0(BatchSize(s.flush, s.writeLen, job.writeBatch))
    case _ => 0
  }

  lemma AioWork(job: Job, s: State, n: nat)
    requires ValidJob(job) && Inv(job, s) && !s.crashed && AioEnabled(s, n)
    requires !AioStep(job, s, n).crashed
    ensures Work(AioStep(job, s, n)) == Work(s) - Progress(job, s, n)
    ensures AioStep(job, s, n).delivered == s.delivered + (if s.apc == Draining then n else 0)
    ensures AioStep(job, s, n).wpc == s.wpc && AioStep(job, s, n).flush == s.flush
    ensures AioStep(job, s, n).visited == s.visited
    ensures Progress(job, s, n) == 0 ==> AioStep(job, s, n).inflight == s.inflight
  {
    match s.apc
    case Draining => DrainWork(job, s, n);
    case Reading => SubmitReadsWork(s, Progress(job, s, n));
    case Writing => SubmitWritesWork(s, Progress(job, s, n));
    case _ =>
  }

  /** Once the flag is up, every step leaves at most the work there was; each event delivered
      takes one off, and each read or write submitted another one. */
  lemma WorkFalls(job: Job, s: State, a: Action)
    requires ValidJob(job) && Inv(job, s) && s.flush && Enabled(s, a) && !Step(job, s, a).crashed
    ensures Work(Step(job, s, a)) == Work(s) - (if a.AioMoves? then Progress(job, s, a.n) else 0)
    ensures Work(Step(job, s, a)) + Step(job, s, a).delivered <= Work(s) + s.delivered
    ensures Step(job, s, a).flush
  {
    match a
    case WalkerMoves(order) =>
    case AioMoves(n) => AioWork(job, s, n);
    case KernelFinishes(i) => KernelWork(job, s, i);
  }

  /** So the events delivered after the flag is up are bounded by the work left at that moment,
      and no work is left when the loop is over. */
  lemma {:induction false} DeliveriesBounded(job: Job, s: State, acts: seq<Action>)
    requires ValidJob(job) && Inv(job, s) && s.flush && Runs(job, s, acts) && !After(job, s, acts).crashed
    ensures Work(After(job, s, acts)) + After(job, s, acts).delivered <= Work(s) + s.delivered
    ensures After(job, s, acts).apc == Exited ==> Work(After(job, s, acts)) == 0
    decreases |acts|
  {
    if acts == [] {
      if s.apc == Exited {
        assert Requests(s.completed) == [];
      }
    } else {
      var s' := Step(job, s, acts[0]);
      hide Inv, Step, Enabled, Work;
      CrashSticks(job, s', acts[1..]);
      WorkFalls(job, s, acts[0]);
      StepKeeps(job, s, acts[0]);
      DeliveriesBounded(job, s', acts[1..]);
    }
  }

  lemma CrashSticks(job: Job, s: State, acts: seq<Action>)
    requires Runs(job, s, acts) && !After(job, s, acts).crashed
    ensures !s.crashed
  {
  }

  // ----- the loop never waits on nothing -----

  /** Whenever a request is anywhere in the engine, the directory its copy goes to is there, so
      the AIO thread can open the destination; no directory stands in its place. */
  lemma DestinationCanBeOpened(job: Job, s: State, r: Request)
    requires ValidJob(job) && Reachable(job, s) && !s.crashed
    requires r in s.readList || r in s.inflight || r in s.writeList || r in Requests(s.completed)
    ensures ParentExists(s.fs, r.dst)
    ensures r.dst in s.fs ==> s.fs[r.dst].Reg?
  {
    ReachableInv(job, s);
    if r in Requests(s.completed) {
      var i :| 0 <= i < |s.completed| && Requests(s.completed)[i] == r;
      assert CompletedOk(job, s.fs, s.visited, s.completed[i]);
    }
    assert Issued(job, s.visited, r);
    CanOpen(job, s, r);
  }

  /** At the end of an iteration that began with the flag up, both lists are empty and something
      is still in flight, whatever the batch sizes. */
  lemma NeverWaitsOnNothing(job: Job, s: State)
    requires ValidJob(job) && Reachable(job, s) && !s.crashed
    requires s.flush && s.apc == Unlocking
    ensures s.readList == [] && s.writeList == []
    ensures |s.inflight| + |s.completed| > 0
  {
    ReachableInv(job, s);
  }

  /** A full run takes exactly two completions for each regular file. */
  lemma TwoCompletionsPerFile(job: Job, s: State)
    requires ValidJob(job) && Reachable(job, s) && !s.crashed && s.apc == Exited
    ensures s.delivered == 2 * |RegularFiles(job)|
    ensures s.reqCount == s.finishedCount == |RegularFiles(job)|
  {
    ReachableInv(job, s);
    assert s.queue == [];
    assert RegularFiles(job) == Added(job, s.visited) by {
      forall k | k in RegularFiles(job) ensures k in Added(job, s.visited) {
        AllHandled(job, s, k);
      }
      forall k | k in Added(job, s.visited) ensures k in RegularFiles(job) {
        assert IsReg(job, k);
      }
    }
    StagesPartition(job, s, job.src);
  }

  function RegularFiles(job: Job): set<string> {
    set k | k in job.fs && IsReg(job, k)
  }

  // ----- a copy can always be completed -----

  function Unhandled(job: Job, visited: set<string>): set<string> {
    set k | k in job.fs && InSource(job, k) && k !in visited
  }

  /** Steps the walker still has to take, at most. */
  function WalkLeft(job: Job, s: State): nat {
    match s.wpc
    case Walking => 2 * |Unhandled(job, s.visited)| + 3
    case Adding => 2 * |Unhandled(job, s.visited)| + 2
    case Flushing => 2
    case Joining => 1
    case Returned => 0
  }

  /** How far the AIO thread is from the next section that must make a difference. */
  function PcLeft(s: State): nat {
    match s.apc
    case Locking => if s.wpc == Joining && s.completed == [] then 7 else 1
    case Draining => if s.wpc == Flushing then 8 else if s.completed == [] then 6 else 0
    case Testing => 5
    case Reading => 4
    case Writing => 3
    case Unlocking => 2
    case Exited => 0
  }

  ghost predicate Closer(job: Job, s: State, s': State) {
    || WalkLeft(job, s') < WalkLeft(job, s)
    || (WalkLeft(job, s') == WalkLeft(job, s) &&
        (|| Work(s') < Work(s)
         || (Work(s') == Work(s) &&
             (|s'.inflight| < |s.inflight| || (|s'.inflight| == |s.inflight| && PcLeft(s') < PcLeft(s))))))
  }

  /** Every directory has a listing, with types or without. */
  lemma SomeOrder(fs: Fs, dir: string, names: set<string>, typed: bool) returns (order: seq<DirEnt>)
    requires forall n :: n in names ==> EntryName(n) && Join(dir, n) in fs
    ensures forall i, j :: 0 <= i < j < |order| ==> order[i].name != order[j].name
    ensures forall i :: 0 <= i < |order| ==> order[i].name in names
    ensures forall n :: n in names ==> Listed(order, n)
    ensures forall i :: 0 <= i < |order| ==> order[i].typeKnown == typed
  {
    if names == {} {
      order := [];
    } else {
      var n :| n in names;
      var rest := SomeOrder(fs, dir, names - {n}, typed);
      order := [DirEnt(n, typed)] + rest;
      assert order[0].name == n;
      forall m | m in names && m != n ensures Listed(order, m) {
        assert Listed(rest, m);
        var i :| 0 <= i < |rest| && rest[i].name == m;
        assert order[i + 1].name == m;
      }
    }
  }

  lemma SomeListing(fs: Fs, dir: string, typed: bool) returns (order: seq<DirEnt>)
    ensures IsListing(fs, dir, order)
    ensures forall i :: 0 <= i < |order| ==> order[i].typeKnown == typed
  {
    hide BaseOf, EntryName, ChildOf, Join;
    var kids := set k | k in fs && ChildOf(dir, k);
    var names := set k | k in kids :: BaseOf(k);
    forall n | n in names ensures EntryName(n) && Join(dir, n) in fs {
      var k :| k in kids && n == BaseOf(k);
      ChildIsJoin(dir, k);
    }
    order := SomeOrder(fs, dir, names, typed);
    forall k | k in fs && ChildOf(dir, k) ensures Listed(order, BaseOf(k)) {
      assert k in kids;
      assert BaseOf(k) in names;
    }
  }

  lemma UnhandledShrinks(job: Job, s: State, s': State)
    requires s.queue != [] && InSource(job, s.queue[0].src) && s.queue[0].src !in s.visited
    requires s'.visited == s.visited + {s.queue[0].src}
    ensures |Unhandled(job, s'.visited)| < |Unhandled(job, s.visited)|
  {
    var k := s.queue[0].src;
    assert Unhandled(job, s'.visited) == Unhandled(job, s.visited) - {k};
    assert k in Unhandled(job, s.visited);
  }

  /** Every step of the walker brings its loop nearer to its end. */
  lemma WalkerTerminates(job: Job, s: State, order: seq<DirEnt>)
    requires ValidJob(job) && Inv(job, s) && !s.crashed && WalkerEnabled(s, order)
    requires !WalkerStep(s, order).crashed
    ensures WalkLeft(job, WalkerStep(s, order)) < WalkLeft(job, s)
  {
    hide Inv, IsListing, Unhandled, ValidJob, CopyDir, ParentExists, IsReg;
    var s' := WalkerStep(s, order);
    PcFacts(job, s);
    if s.queue != [] {
      HeadOk(job, s);
      if s'.visited != s.visited { UnhandledShrinks(job, s, s'); }
    }
  }

  lemma WalkerCloser(job: Job, s: State, order: seq<DirEnt>)
    requires ValidJob(job) && Inv(job, s) && !s.crashed && WalkerEnabled(s, order)
    requires !WalkerStep(s, order).crashed
    ensures Closer(job, s, WalkerStep(s, order))
  {
    WalkerTerminates(job, s, order);
  }

  lemma WalkerNext(job: Job, s: State, typed: bool) returns (a: Action)
    requires ValidJob(job) && Inv(job, s) && !s.crashed && Copyable(job, typed)
    requires s.wpc == Walking || s.wpc == Adding
    ensures Enabled(s, a) && Types(a, typed) && Closer(job, s, Step(job, s, a))
  {
    hide Inv, ValidJob, Copyable, IsListing, Closer;
    var order := [];
    if s.wpc == Walking && s.queue != [] {
      order := SomeListing(s.fs[s.queue[0].dst := Dir], s.queue[0].src, typed);
    }
    a := WalkerMoves(order);
    CopyableSucceeds(job, s, a, typed);
    WalkerCloser(job, s, order);
  }

  lemma CloserByWork(job: Job, s: State, s': State)
    requires s'.wpc == s.wpc && s'.visited == s.visited && Work(s') < Work(s)
    ensures Closer(job, s, s')
  {
  }

  lemma CloserByPc(job: Job, s: State, s': State)
    requires s' == s.(apc := s'.apc) && PcLeft(s') < PcLeft(s)
    ensures Closer(job, s, s')
  {
  }

  lemma CountFacts(job: Job, s: State)
    requires Inv(job, s)
    ensures s.readLen == |s.readList| && s.writeLen == |s.writeList| && s.finishedCount == |s.finished|
    ensures s.requestCount == |s.readList| + |s.inflight| + |s.completed| + |s.writeList| + |s.finished|
  {
  }

  /** A section that neither delivers nor submits anything only moves the program counter. */
  lemma IdleSection(job: Job, s: State, n: nat)
    requires AioEnabled(s, n) && !s.crashed && Progress(job, s, n) == 0
    ensures AioStep(job, s, n) == s.(apc := AioStep(job, s, n).apc)
  {
  }

  lemma AioCloser(job: Job, s: State, n: nat)
    requires ValidJob(job) && Inv(job, s) && !s.crashed && AioEnabled(s, n) && !AioStep(job, s, n).crashed
    requires (s.wpc == Flushing && !FlushMutexFree(s) && n == 0)
          || (s.wpc == Joining && s.inflight == [] && n == Min(10, |s.completed|))
    requires AioStep(job, s, n).apc != Exited
    ensures Closer(job, s, AioStep(job, s, n))
  {
    hide Inv, Work, ValidJob, Closer, Drain, SubmitReads, SubmitWrites;
    AioWork(job, s, n);
    PcFacts(job, s);
    CountFacts(job, s);
    if Progress(job, s, n) > 0 {
      CloserByWork(job, s, AioStep(job, s, n));
    } else {
      IdleSection(job, s, n);
      CloserByPc(job, s, AioStep(job, s, n));
    }
  }

  lemma FlushNext(job: Job, s: State, typed: bool) returns (a: Action)
    requires ValidJob(job) && Inv(job, s) && !s.crashed && Copyable(job, typed) && s.wpc == Flushing
    ensures Enabled(s, a) && Types(a, typed) && Closer(job, s, Step(job, s, a))
  {
    hide Inv, ValidJob, Copyable, Closer;
    if FlushMutexFree(s) {
      a := WalkerMoves([]);
      WalkerCloser(job, s, []);
    } else {
      a := AioMoves(0);
      CopyableSucceeds(job, s, a, typed);
      PcFacts(job, s);
      AioCloser(job, s, 0);
    }
  }

  /** Leaving the loop is the last thing the AIO thread does. */
  lemma ExitCloser(job: Job, s: State, n: nat)
    requires AioEnabled(s, n) && AioStep(job, s, n).apc == Exited
    requires s.apc == Testing
    ensures Closer(job, s, AioStep(job, s, n))
  {
    CloserByPc(job, s, AioStep(job, s, n));
  }

  lemma JoinNext(job: Job, s: State, typed: bool) returns (a: Action)
    requires ValidJob(job) && Inv(job, s) && !s.crashed && Copyable(job, typed) && s.wpc == Joining
    ensures Enabled(s, a) && Types(a, typed) && Closer(job, s, Step(job, s, a))
  {
    hide Inv, ValidJob, Copyable, Closer;
    if s.apc == Exited {
      a := WalkerMoves([]);
      WalkerCloser(job, s, []);
    } else if s.inflight != [] {
      a := KernelFinishes(0);
      KernelWork(job, s, 0);
      CloserByFlight(job, s, KernelStep(s, 0));
    } else {
      var n := Min(10, |s.completed|);
      a := AioMoves(n);
      CopyableSucceeds(job, s, a, typed);
      if AioStep(job, s, n).apc == Exited {
        ExitsFromTesting(job, s, n);
        ExitCloser(job, s, n);
      } else {
        AioCloser(job, s, n);
      }
    }
  }

  lemma ExitsFromTesting(job: Job, s: State, n: nat)
    requires s.apc != Exited && AioStep(job, s, n).apc == Exited
    ensures s.apc == Testing
  {
  }

  lemma CloserByFlight(job: Job, s: State, s': State)
    requires s'.wpc == s.wpc && s'.visited == s.visited && Work(s') == Work(s) && |s'.inflight| < |s.inflight|
    ensures Closer(job, s, s')
  {
  }

  lemma NextAction(job: Job, s: State, typed: bool) returns (a: Action)
    requires ValidJob(job) && Inv(job, s) && !s.crashed && Copyable(job, typed) && s.wpc != Returned
    ensures Enabled(s, a) && Types(a, typed) && Closer(job, s, Step(job, s, a))
    ensures Inv(job, Step(job, s, a)) && !Step(job, s, a).crashed
  {
    hide Inv, ValidJob, Copyable, Closer, Enabled, Step;
    match s.wpc {
      case Walking => a := WalkerNext(job, s, typed);
      case Adding => a := WalkerNext(job, s, typed);
      case Flushing => a := FlushNext(job, s, typed);
      case Joining => a := JoinNext(job, s, typed);
    }
    CopyableSucceeds(job, s, a, typed);
    StepKeeps(job, s, a);
  }

  /** From here the two threads and the kernel can bring the copy to its end. */
  lemma {:induction false} CanFinishFrom(job: Job, s: State, typed: bool) returns (acts: seq<Action>)
    requires ValidJob(job) && Inv(job, s) && !s.crashed && Copyable(job, typed)
    ensures Runs(job, s, acts) && forall i :: 0 <= i < |acts| ==> Types(acts[i], typed)
    ensures After(job, s, acts).wpc == Returned && !After(job, s, acts).crashed
    decreases WalkLeft(job, s), Work(s), |s.inflight|, PcLeft(s)
  {
    hide Inv, ValidJob, Copyable, Types, Enabled, Step;
    if s.wpc == Returned {
      acts := [];
    } else {
      var a := NextAction(job, s, typed);
      var rest := CanFinishFrom(job, Step(job, s, a), typed);
      acts := [a] + rest;
      assert acts[1..] == rest;
    }
  }

  /** The run completes the copy, on a file system that gives types of entries or on one that does
      not. */
  ghost predicate Completes(job: Job, s: State, acts: seq<Action>, typed: bool) {
    && Runs(job, s, acts)
    && (forall i :: 0 <= i < |acts| ==> Types(acts[i], typed))
    && !After(job, s, acts).crashed && After(job, s, acts).wpc == Returned
  }

  lemma CompletedIsSizeable(job: Job, s: State, acts: seq<Action>)
    requires ValidJob(job) && Reachable(job, s) && Runs(job, s, acts)
    requires !After(job, s, acts).crashed && After(job, s, acts).wpc == Returned
    ensures AllSizeable(job)
  {
    hide ValidJob, Runs, After, Sizeable;
    var before :| Runs(job, Init(job), before) && After(job, Init(job), before) == s;
    RunsAppend(job, Init(job), before, acts);
    EndToEnd(job, After(job, s, acts));
  }

  /** Short of an error, a reachable state has a way to the return exactly if no size is negative as
      a 32-bit number; where the file system gives the types of entries, there is one for every tree
      of directories and such files. */
  lemma CanAlwaysFinish(job: Job, s: State)
    requires ValidJob(job) && Reachable(job, s) && !s.crashed
    ensures (exists acts :: Completes(job, s, acts, false)) <==> AllSizeable(job)
    ensures GoodTree(job) ==> exists acts :: Completes(job, s, acts, true)
  {
    hide Inv, ValidJob, Reachable, GoodTree, AllSizeable;
    ReachableInv(job, s);
    if AllSizeable(job) {
      var acts := CanFinishFrom(job, s, false);
      assert Completes(job, s, acts, false);
    }
    if GoodTree(job) {
      var acts := CanFinishFrom(job, s, true);
      assert Completes(job, s, acts, true);
    }
    if acts :| Completes(job, s, acts, false) {
      CompletedIsSizeable(job, s, acts);
    }
  }

  /** And there is such a run. */
  lemma BigFileRun()
    ensures exists acts :: Completes(BigFile(), Init(BigFile()), acts, true) &&
                           "b" in After(BigFile(), Init(BigFile()), acts).fs &&
                           After(BigFile(), Init(BigFile()), acts).fs["b"] ==
                           Reg(BigFile().fs["a"].data[..4096])
  {
    hide Inv, ValidJob, GoodTree, BigFile, Runs, After;
    var job := BigFile();
    BigFileIsValid();
    InitInv(job);
    var acts := CanFinishFrom(job, Init(job), true);
    var s := After(job, Init(job), acts);
    assert Reachable(job, s);
    BigFileCutShort(s);
    assert Completes(job, Init(job), acts, true);
  }
}
