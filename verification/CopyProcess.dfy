/** The two threads as they are written: shared fields, and one method for each section of the
    walker's loop and of the AIO thread's loop.  Each method takes the shared fields from one
    state of the transition system to the next; when the program ends with an error, so does
    the step, and nothing is said about the fields left behind.  `Copy` runs the threads and the
    kernel under any schedule. */
module CopyProcess {
  import opened FileSystem
  import opened CopyEngine
  import opened CopyInvariants
  import opened CopyTheorems
  import opened CopyProgress
  import CopyLiveness

  ghost predicate SameOutcome(actual: State, spec: State) {
    if spec.crashed then actual.crashed else actual == spec
  }

  /** Submitting one request does not depend on what is in flight already. */
  lemma SubmitReadShift(s: State, flight: seq<Request>)
    ensures SubmitReadOne(s.(inflight := flight)).crashed == SubmitReadOne(s).crashed
    ensures forall r :: !s.crashed && !SubmitReadOne(s).crashed && SubmitReadOne(s).inflight == s.inflight + [r] ==>
              SubmitReadOne(s.(inflight := flight)) == SubmitReadOne(s).(inflight := flight + [r])
  {
    forall r | !s.crashed && !SubmitReadOne(s).crashed && SubmitReadOne(s).inflight == s.inflight + [r]
      ensures SubmitReadOne(s.(inflight := flight)) == SubmitReadOne(s).(inflight := flight + [r])
    {
      assert (s.inflight + [r])[|s.inflight|] == r;
    }
  }

  /** Submitting one request does not depend on what is in flight already. */
  lemma SubmitWriteShift(s: State, flight: seq<Request>)
    ensures SubmitWriteOne(s.(inflight := flight)).crashed == SubmitWriteOne(s).crashed
    ensures forall r :: !s.crashed && !SubmitWriteOne(s).crashed && SubmitWriteOne(s).inflight == s.inflight + [r] ==>
              SubmitWriteOne(s.(inflight := flight)) == SubmitWriteOne(s).(inflight := flight + [r])
  {
    forall r | !s.crashed && !SubmitWriteOne(s).crashed && SubmitWriteOne(s).inflight == s.inflight + [r]
      ensures SubmitWriteOne(s.(inflight := flight)) == SubmitWriteOne(s).(inflight := flight + [r])
    {
      assert (s.inflight + [r])[|s.inflight|] == r;
    }
  }

  class Process {
    var fs: Fs
    // the walker
    var wpc: WalkerPc
    var queue: seq<Item>
    var reqCount: int
    // the AIO manager
    var apc: AioPc
    var readHead: seq<Request>
    var writeHead: seq<Request>
    var requestCount: int
    var readLen: int
    var writeLen: int
    var finishedCount: int
    var flush: bool
    const readBatch: int
    const writeBatch: int
    // the kernel
    var inflight: seq<Request>
    var completed: seq<Event>
    // history
    ghost var visited: set<string>
    ghost var finished: seq<Request>
    ghost var delivered: int
    var crashed: bool

    ghost function Snapshot(): State
      reads this
    {
      State(fs, wpc, queue, reqCount, apc, readHead, writeHead, requestCount, readLen, writeLen, finishedCount,
            flush, inflight, completed, visited, finished, delivered, crashed)
    }

    /** The process works on this job, and has not lost its way. */
    ghost predicate Valid(job: Job)
      reads this
    {
      readBatch == job.readBatch && writeBatch == job.writeBatch && (!crashed ==> Inv(job, Snapshot()))
    }

    /** `init_aio_manager`, and the work list with the root in it. */
    constructor (job: Job)
      ensures Snapshot() == Init(job)
      ensures readBatch == job.readBatch && writeBatch == job.writeBatch
    {
      fs, wpc, queue, reqCount := job.fs, Walking, [Item(job.src, job.dst)], 0;
      apc, readHead, writeHead := Locking, [], [];
      requestCount, readLen, writeLen, finishedCount, flush := 0, 0, 0, 0, false;
      readBatch, writeBatch := job.readBatch, job.writeBatch;
      inflight, completed := [], [];
      visited, finished, delivered, crashed := {}, [], 0, false;
    }

    // ----- the walker -----

    /** `copy_dir`: append a node for each entry, or end the process at a special file. */
    method CopyDirectory(dir: Item, order: seq<DirEnt>)
      requires !crashed
      modifies this`queue, this`crashed
      ensures crashed == !CopyDir(fs, dir, order).0
      ensures !crashed ==> queue == old(queue) + CopyDir(fs, dir, order).1
    {
      ghost var all := CopyDir(fs, dir, order);
      for i := 0 to |order|
        invariant !crashed
        invariant CopyDir(fs, dir, order[i..]).0 == all.0
        invariant queue + CopyDir(fs, dir, order[i..]).1 == old(queue) + all.1
      {
        var ent := order[i];
        assert order[i..][1..] == order[i + 1..];
        if ent.name == "." || ent.name == ".." {
          continue;
        }
        var node := Item(Join(dir.src, ent.name), Join(dir.dst, ent.name));
        if ent.typeKnown && node.src in fs && fs[node.src].Special? {
          crashed := true;
          return;
        }
        queue := queue + [node];
      }
      assert order[|order|..] == [];
    }

    /** `add_copy_req`: one more request, at the head of the read list. */
    method PushRead(req: Request)
      modifies this
      ensures Snapshot() == old(Snapshot()).(
        requestCount := old(requestCount) + 1, readLen := old(readLen) + 1, readList := [req] + old(readHead))
    {
      requestCount := requestCount + 1;
      readLen := readLen + 1;
      readHead := [req] + readHead;
    }

    /** `add_copy_req`, then the removal of the node, under the request mutex. */
    method AddCopyRequest()
      requires queue != [] && wpc == Adding
      modifies this
      ensures Snapshot() == AddCopyReq(old(Snapshot()))
    {
      var curr := queue[0];
      PushRead(CopyReg(curr));
      RemoveHead();
      wpc := Walking;
    }

    /** The node at the head is done with. */
    method RemoveHead()
      requires queue != []
      modifies this`queue, this`visited
      ensures queue == old(queue)[1..] && visited == old(visited) + {old(queue)[0].src}
    {
      visited := visited + {queue[0].src};
      queue := queue[1..];
    }

    /** `mkdir`, which wants a name that is free and a parent that is there. */
    method MakeDirectory(name: string)
      requires !crashed
      modifies this`fs, this`crashed
      ensures crashed == (name in old(fs) || !ParentExists(old(fs), name))
      ensures !crashed ==> fs == old(fs)[name := Dir]
    {
      if name in fs || !ParentExists(fs, name) {
        crashed := true;
      } else {
        fs := fs[name := Dir];
      }
    }

    /** `mkdir`, then `copy_dir`. */
    method EnterDirectory(curr: Item, order: seq<DirEnt>)
      requires !crashed
      modifies this`fs, this`queue, this`crashed
      ensures crashed == (curr.dst in old(fs) || !ParentExists(old(fs), curr.dst) ||
                          !CopyDir(old(fs)[curr.dst := Dir], curr, order).0)
      ensures !crashed ==> fs == old(fs)[curr.dst := Dir] && queue == old(queue) + CopyDir(fs, curr, order).1
    {
      hide CopyDir, ParentExists;
      MakeDirectory(curr.dst);
      if !crashed {
        CopyDirectory(curr, order);
      }
    }

    /** Copy the directory at the head of the queue, and remove its node. */
    method WalkDirectory(order: seq<DirEnt>)
      requires queue != [] && !crashed
      modifies this
      ensures SameOutcome(Snapshot(), WalkDir(old(Snapshot()), order))
    {
      hide CopyDir, ParentExists;
      EnterDirectory(queue[0], order);
      if !crashed {
        RemoveHead();
      }
    }

    /** One step of `copy_internal` and of `wait_for_aio_finish`. */
    method WalkerTurn(order: seq<DirEnt>)
      requires !crashed && WalkerEnabled(Snapshot(), order)
      modifies this
      ensures SameOutcome(Snapshot(), WalkerStep(old(Snapshot()), order))
    {
      match wpc {
        case Walking =>
          if queue == [] {
            wpc := Flushing;
          } else if queue[0].src !in fs {
            crashed := true;
          } else {
            match fs[queue[0].src] {
              case Dir =>
                WalkDirectory(order);
              case Reg(_) =>
                reqCount := reqCount + 1;
                wpc := Adding;
              case Special =>
                RemoveHead();
            }
          }
        case Adding =>
          if queue != [] {
            AddCopyRequest();
          }
        case Flushing =>
          flush := true;
          wpc := Joining;
        case Joining =>
          wpc := Returned;
        case Returned =>
      }
    }

    // ----- the AIO thread -----

    /** A finished read goes to the head of the write list; a finished write is counted. */
    method Advance(copyReq: Request)
      modifies this
      ensures Snapshot() ==
        if copyReq.state == 1 then
          old(Snapshot()).(writeList := [copyReq] + old(writeHead), writeLen := old(writeLen) + 1)
        else if copyReq.state == 2 then
          old(Snapshot()).(finishedCount := old(finishedCount) + 1, finished := old(finished) + [copyReq])
        else old(Snapshot())
    {
      if copyReq.state == 1 {
        writeHead := [copyReq] + writeHead;
        writeLen := writeLen + 1;
      } else if copyReq.state == 2 {
        finishedCount := finishedCount + 1;
        finished := finished + [copyReq];
      }
    }

    /** One turn of the event loop: a finished read goes to the write list, a finished write is
        counted. */
    method HandleEvent()
      requires completed != []
      modifies this
      ensures Snapshot() == DrainOne(old(Snapshot()))
      ensures completed == old(completed)[1..]
    {
      var currEvent := completed[0];
      var copyReq := currEvent.req;
      completed := completed[1..];
      delivered := delivered + 1;
      if currEvent.res != copyReq.fsize {
        crashed := true;
        return;
      }
      Advance(copyReq);
    }

    /** The event loop over the `n` events `io_getevents` returned. */
    method HandleEvents(n: nat)
      requires n <= |completed| && !crashed
      modifies this
      ensures SameOutcome(Snapshot(), Drain(old(Snapshot()), n))
    {
      hide DrainOne;
      for i := 0 to n
        invariant !crashed && |completed| == |old(completed)| - i
        invariant Drain(Snapshot(), n - i) == Drain(old(Snapshot()), n)
      {
        HandleEvent();
        if crashed {
          return;
        }
      }
    }

    /** Open the file at the head of the read list, size it, and take the request off the list. */
    method PrepareRead() returns (iocb: Request)
      requires !crashed
      modifies this
      ensures inflight == old(inflight)
      ensures crashed == SubmitReadOne(old(Snapshot())).crashed
      ensures !crashed ==> Snapshot().(inflight := inflight + [iocb]) == SubmitReadOne(old(Snapshot()))
    {
      iocb := Request("", "", 0, [], 0);
      if readHead == [] {
        crashed := true;
        return;
      }
      var curr := readHead[0];
      if curr.src !in fs || !fs[curr.src].Reg? {
        crashed := true;
        return;
      }
      var fsize := Int32(|fs[curr.src].data|);
      if fsize < 0 {
        crashed := true;
        return;
      }
      iocb := curr.(fsize := fsize, state := 1);
      readHead := readHead[1..];
      readLen := readLen - 1;
    }

    /** The read submission section: take the batch off the read list, then submit it. */
    method SubmitReadBatch()
      requires !crashed
      modifies this
      ensures SameOutcome(Snapshot(),
                          SubmitReads(old(Snapshot()), AtLeast0(BatchSize(old(flush), old(readLen), readBatch))))
    {
      hide SubmitReadOne;
      var readSize := 0;
      if flush {
        readSize := readLen;
      } else if readLen >= readBatch {
        readSize := readBatch;
      }
      if readSize > 0 {
        var iocbs: seq<Request> := [];
        assert inflight + iocbs == inflight;
        for i := 0 to readSize
          invariant !crashed
          invariant SubmitReads(Snapshot().(inflight := inflight + iocbs), readSize - i) ==
                    SubmitReads(old(Snapshot()), readSize)
        {
          ghost var before := Snapshot();
          var iocb := PrepareRead();
          SubmitReadShift(before, inflight + iocbs);
          if crashed {
            return;
          }
          assert inflight + (iocbs + [iocb]) == (inflight + iocbs) + [iocb];
          iocbs := iocbs + [iocb];
        }
        inflight := inflight + iocbs;
      }
    }

    /** `open` with `O_CREAT`, which makes an empty file unless there is one already. */
    method OpenDestination(name: string)
      requires !crashed
      modifies this`fs, this`crashed
      ensures crashed == if name in old(fs) then !old(fs)[name].Reg? else !ParentExists(old(fs), name)
      ensures fs == if crashed || name in old(fs) then old(fs) else old(fs)[name := Reg([])]
    {
      if name in fs {
        crashed := !fs[name].Reg?;
      } else if ParentExists(fs, name) {
        fs := fs[name := Reg([])];
      } else {
        crashed := true;
      }
    }

    /** Open the destination of the request at the head of the write list, and take it off. */
    method PrepareWrite() returns (iocb: Request)
      requires !crashed
      modifies this
      ensures inflight == old(inflight)
      ensures crashed == SubmitWriteOne(old(Snapshot())).crashed
      ensures !crashed ==> Snapshot().(inflight := inflight + [iocb]) == SubmitWriteOne(old(Snapshot()))
    {
      iocb := Request("", "", 0, [], 0);
      if writeHead == [] {
        crashed := true;
        return;
      }
      var curr := writeHead[0];
      OpenDestination(curr.dst);
      if crashed {
        return;
      }
      iocb := curr.(state := 2);
      writeHead := writeHead[1..];
      writeLen := writeLen - 1;
    }

    /** The write submission section: take the batch off the write list, then submit it. */
    method SubmitWriteBatch()
      requires !crashed
      modifies this
      ensures SameOutcome(Snapshot(),
                          SubmitWrites(old(Snapshot()), AtLeast0(BatchSize(old(flush), old(writeLen), writeBatch))))
    {
      hide SubmitWriteOne;
      var writeSize := 0;
      if flush {
        writeSize := writeLen;
      } else if writeLen >= writeBatch {
        writeSize := writeBatch;
      }
      if writeSize > 0 {
        var iocbs: seq<Request> := [];
        assert inflight + iocbs == inflight;
        for i := 0 to writeSize
          invariant !crashed
          invariant SubmitWrites(Snapshot().(inflight := inflight + iocbs), writeSize - i) ==
                    SubmitWrites(old(Snapshot()), writeSize)
        {
          ghost var before := Snapshot();
          var iocb := PrepareWrite();
          SubmitWriteShift(before, inflight + iocbs);
          if crashed {
            return;
          }
          assert inflight + (iocbs + [iocb]) == (inflight + iocbs) + [iocb];
          iocbs := iocbs + [iocb];
        }
        inflight := inflight + iocbs;
      }
    }

    /** One section of the loop body of `aio_loop`. */
    method AioTurn(ghost job: Job, n: nat)
      requires !crashed && readBatch == job.readBatch && writeBatch == job.writeBatch
      requires AioEnabled(Snapshot(), n)
      modifies this
      ensures SameOutcome(Snapshot(), AioStep(job, old(Snapshot()), n))
    {
      match apc {
        case Locking =>
          apc := Draining;
        case Draining =>
          HandleEvents(n);
          apc := Testing;
        case Testing =>
          if flush && reqCount == finishedCount {
            apc := Exited;
          } else {
            apc := Reading;
          }
        case Reading =>
          SubmitReadBatch();
          apc := Writing;
        case Writing =>
          SubmitWriteBatch();
          apc := Unlocking;
        case Unlocking =>
          apc := Locking;
        case Exited =>
      }
    }

    // ----- the kernel -----

    /** A transfer is carried out and its completion event made available. */
    method KernelTurn(i: nat)
      requires !crashed && i < |inflight|
      modifies this
      ensures Snapshot() == KernelStep(old(Snapshot()), i)
    {
      hide Finish;
      var done := Finish(fs, inflight[i]);
      fs := done.0;
      inflight := inflight[..i] + inflight[i + 1..];
      completed := completed + [done.1];
    }

    // ----- any schedule -----

    /** Whether a party can take its turn: the walker waits for the flush mutex and for the end of
        the AIO thread, which holds the mutex from one end of its loop body to the other; at most
        ten events are delivered at a time. */
    predicate MayTurn(a: Action)
      reads this
      ensures MayTurn(a) <==> Enabled(Snapshot(), a)
    {
      hide IsListing;
      !crashed &&
      match a
      case WalkerMoves(order) => (
        match wpc
        case Walking =>
          queue != [] && queue[0].src in fs && fs[queue[0].src].Dir? ==>
            IsListing(fs[queue[0].dst := Dir], queue[0].src, order)
        case Adding => true
        case Flushing => apc == Locking || apc == Exited
        case Joining => apc == Exited
        case Returned => false
      )
      case AioMoves(n) => apc != Exited && (apc == Draining ==> n <= 10 && n <= |completed|)
      case KernelFinishes(i) => i < |inflight|
    }

    /** One turn of any party: a step of the system, and the invariant is kept. */
    method Turn(ghost job: Job, a: Action)
      requires ValidJob(job) && Valid(job) && MayTurn(a)
      modifies this
      ensures Valid(job)
      ensures SameOutcome(Snapshot(), Step(job, old(Snapshot()), a))
    {
      hide Inv, ValidJob, WalkerStep, AioStep, KernelStep, WalkerEnabled, AioEnabled;
      ghost var was := Snapshot();
      StepKeeps(job, was, a);
      match a {
        case WalkerMoves(order) => WalkerTurn(order);
        case AioMoves(n) => AioTurn(job, n);
        case KernelFinishes(i) => KernelTurn(i);
      }
    }
  }

  // ----- any schedule -----

  /** The actions of a schedule that are taken: those whose party can move when their turn comes. */
  ghost function Taken(job: Job, s: State, schedule: seq<Action>): (acts: seq<Action>)
    ensures Runs(job, s, acts)
    decreases |schedule|
  {
    if schedule == [] then []
    else if Enabled(s, schedule[0]) then
      var rest := Taken(job, Step(job, s, schedule[0]), schedule[1..]);
      assert ([schedule[0]] + rest)[1..] == rest;
      [schedule[0]] + rest
    else Taken(job, s, schedule[1..])
  }

  ghost function Outcome(job: Job, s: State, schedule: seq<Action>): State {
    After(job, s, Taken(job, s, schedule))
  }

  lemma OutcomeStep(job: Job, s: State, schedule: seq<Action>)
    requires schedule != []
    ensures Outcome(job, s, schedule) ==
            Outcome(job, if Enabled(s, schedule[0]) then Step(job, s, schedule[0]) else s, schedule[1..])
  {
    hide Enabled, Step;
    if Enabled(s, schedule[0]) {
      var rest := Taken(job, Step(job, s, schedule[0]), schedule[1..]);
      assert ([schedule[0]] + rest)[1..] == rest;
    }
  }

  /** A schedule in which each party is called only when it can move is taken as it stands. */
  lemma {:induction false} RunIsTaken(job: Job, s: State, acts: seq<Action>)
    requires Runs(job, s, acts)
    ensures Taken(job, s, acts) == acts
    decreases |acts|
  {
    hide Enabled, Step;
    if acts != [] {
      RunIsTaken(job, Step(job, s, acts[0]), acts[1..]);
      assert acts == [acts[0]] + acts[1..];
    }
  }

  /** `cpr` under any schedule: a party whose turn comes at a time when it cannot move waits, all
      others take their step.  If the process returns, the copy is complete; and it does return
      under every schedule that completes a copy in the system. */
  method Copy(job: Job, schedule: seq<Action>) returns (p: Process)
    requires ValidJob(job)
    ensures fresh(p) && p.Valid(job)
    ensures SameOutcome(p.Snapshot(), Outcome(job, Init(job), schedule))
    ensures !p.crashed ==> Reachable(job, p.Snapshot())
    ensures !p.crashed && p.wpc == Returned ==> CopyDone(job, p.fs)
    ensures forall typed :: Completes(job, Init(job), schedule, typed) ==> !p.crashed && p.wpc == Returned
    ensures GoodTree(job) ==> !p.crashed
    ensures FitsInt(job) && p.wpc == Returned ==> SameTree(job, p.fs)
  {
    hide Inv, ValidJob, Reachable, CopyDone, GoodTree, FitsInt, SameTree, Enabled, Step, Outcome, Completes;
    p := new Process(job);
    InitInv(job);
    StartIsReachable(job);
    ghost var s := Init(job);
    assert schedule[0..] == schedule;
    for i := 0 to |schedule|
      invariant fresh(p) && p.Valid(job)
      invariant SameOutcome(p.Snapshot(), s) && p.crashed == s.crashed
      invariant Outcome(job, s, schedule[i..]) == Outcome(job, Init(job), schedule)
      invariant Reachable(job, s)
    {
      var a := schedule[i];
      OutcomeStep(job, s, schedule[i..]);
      assert schedule[i..][1..] == schedule[i + 1..];
      if Enabled(s, a) { StillRunning(s, a); }
      if p.MayTurn(a) {
        StillRunning(p.Snapshot(), a);
        StepReachable(job, s, a);
        p.Turn(job, a);
        s := Step(job, s, a);
      }
    }
    assert schedule[|schedule|..] == [];
    NothingLeft(job, s);
    Results(job, s, schedule);
  }

  lemma NothingLeft(job: Job, s: State)
    ensures Outcome(job, s, []) == s
  {
  }

  lemma StartIsReachable(job: Job)
    ensures Reachable(job, Init(job)) && !Init(job).crashed
  {
    assert Runs(job, Init(job), []) && After(job, Init(job), []) == Init(job);
  }

  lemma StepReachable(job: Job, s: State, a: Action)
    requires ValidJob(job) && Reachable(job, s) && Enabled(s, a)
    ensures Reachable(job, Step(job, s, a))
    ensures GoodTree(job) ==> !Step(job, s, a).crashed
  {
    hide ValidJob, Reachable, GoodTree, Enabled, Step;
    assert [a][1..] == [];
    assert Runs(job, Step(job, s, a), []);
    assert Runs(job, s, [a]) && After(job, s, [a]) == After(job, Step(job, s, a), []);
    CopyLiveness.ReachableOn(job, s, [a]);
    if GoodTree(job) { NeverCrashes(job, Step(job, s, a)); }
  }

  lemma Results(job: Job, s: State, schedule: seq<Action>)
    requires ValidJob(job) && Reachable(job, s) && s == Outcome(job, Init(job), schedule)
    ensures !s.crashed && s.wpc == Returned ==> CopyDone(job, s.fs)
    ensures forall typed :: Completes(job, Init(job), schedule, typed) ==> !s.crashed && s.wpc == Returned
    ensures GoodTree(job) || FitsInt(job) ==> !s.crashed
    ensures FitsInt(job) && s.wpc == Returned ==> SameTree(job, s.fs)
  {
    hide ValidJob, Reachable, GoodTree, FitsInt, CopyDone, SameTree, Runs, After, Taken;
    if FitsInt(job) { FitsIntIsGood(job); }
    if GoodTree(job) { NeverCrashes(job, s); }
    if !s.crashed && s.wpc == Returned {
      EndToEnd(job, s);
      FaithfulIff(job, s);
    }
    if Runs(job, Init(job), schedule) { RunIsTaken(job, Init(job), schedule); }
  }
}
