/** What holds of every run of the copy engine: safety in every reachable state, and the state
    of the destination when `wait_for_aio_finish` has returned. */
module CopyTheorems {
  import opened FileSystem
  import opened CopyEngine
  import opened CopyInvariants
  import opened WalkerSteps
  import opened AioSteps

  ghost predicate Reachable(job: Job, s: State) {
    exists acts :: Runs(job, Init(job), acts) && After(job, Init(job), acts) == s
  }

  // ----- the invariant holds throughout -----

  lemma InitInv(job: Job)
    requires ValidJob(job)
    ensures Inv(job, Init(job))
  {
    var s := Init(job);
    assert s.queue[0].src == job.src;
    assert Queued(s.queue, job.src);
    assert Added(job, s.visited) == {};
    assert job.dst == DstOf(job, job.src);
  }

  lemma StepKeeps(job: Job, s: State, a: Action)
    requires ValidJob(job) && Inv(job, s) && Enabled(s, a)
    ensures !Step(job, s, a).crashed ==> Inv(job, Step(job, s, a))
  {
    match a
    case WalkerMoves(order) => if !WalkerStep(s, order).crashed { WalkerKeeps(job, s, order); }
    case AioMoves(n) => AioKeeps(job, s, n);
    case KernelFinishes(i) => KernelKeeps(job, s, i);
  }

  lemma {:induction false} RunKeeps(job: Job, s: State, acts: seq<Action>)
    requires ValidJob(job) && Runs(job, s, acts)
    requires !s.crashed ==> Inv(job, s)
    ensures !After(job, s, acts).crashed ==> Inv(job, After(job, s, acts))
    decreases |acts|
  {
    hide Inv, Step, Enabled;
    if acts != [] {
      assert Enabled(s, acts[0]);
      StillRunning(s, acts[0]);
      StepKeeps(job, s, acts[0]);
      RunKeeps(job, Step(job, s, acts[0]), acts[1..]);
    }
  }

  lemma StillRunning(s: State, a: Action)
    requires Enabled(s, a)
    ensures !s.crashed
  {
  }

  lemma {:induction false} RunsAppend(job: Job, s: State, a: seq<Action>, b: seq<Action>)
    requires Runs(job, s, a) && Runs(job, After(job, s, a), b)
    ensures Runs(job, s, a + b) && After(job, s, a + b) == After(job, After(job, s, a), b)
    decreases |a|
  {
    hide Enabled, Step;
    if a == [] {
      assert a + b == b;
    } else {
      assert (a + b)[0] == a[0] && (a + b)[1..] == a[1..] + b;
      RunsAppend(job, Step(job, s, a[0]), a[1..], b);
    }
  }

  lemma ReachableInv(job: Job, s: State)
    requires ValidJob(job) && Reachable(job, s) && !s.crashed
    ensures Inv(job, s)
  {
    hide Inv;
    var acts :| Runs(job, Init(job), acts) && After(job, Init(job), acts) == s;
    InitInv(job);
    RunKeeps(job, Init(job), acts);
  }

  // ----- every request is in exactly one stage -----

  /** In how many places of the engine a request for `k` can be found. */
  function StagesOf(s: State, k: string): nat {
    Names(s.readList)[k] + Names(s.inflight)[k] + Names(Requests(s.completed))[k] + Names(s.writeList)[k] +
    Names(s.finished)[k]
  }

  /** Every regular file the walker has handed over has one request, in one stage; no other name
      has any.  The counters and lengths say what they are meant to say. */
  lemma StagesPartition(job: Job, s: State, k: string)
    requires ValidJob(job) && Reachable(job, s) && !s.crashed
    ensures StagesOf(s, k) == (if k in s.visited && IsReg(job, k) then 1 else 0)
    ensures s.readLen == |s.readList| && s.writeLen == |s.writeList|
    ensures s.requestCount == |s.readList| + |s.inflight| + |s.completed| + |s.writeList| + |s.finished|
    ensures s.requestCount == |Added(job, s.visited)|
    ensures s.finishedCount <= s.requestCount <= s.reqCount <= s.requestCount + 1
    ensures s.flush ==> s.reqCount == s.requestCount
  {
    ReachableInv(job, s);
    hide Names, Added;
    assert Pool(s)[k] == StagesOf(s, k);
    AddedOnce(job, s.visited, k);
    NamesSize(s.readList);
    NamesSize(s.inflight);
    NamesSize(Requests(s.completed));
    NamesSize(s.writeList);
    NamesSize(s.finished);
    assert |Pool(s)| == s.requestCount;
  }

  lemma AddedOnce(job: Job, visited: set<string>, k: string)
    ensures multiset(Added(job, visited))[k] == (if k in visited && IsReg(job, k) then 1 else 0)
    ensures |multiset(Added(job, visited))| == |Added(job, visited)|
  {
  }

  // ----- nothing goes wrong -----

  /** Directories and regular files only, and no size negative as a 32-bit number. */
  ghost predicate GoodTree(job: Job) {
    forall k {:trigger InSource(job, k)} :: InSource(job, k) ==>
      !job.fs[k].Special? && (IsReg(job, k) ==> Sizeable(job, k))
  }

  lemma CopiedOnlyIfHandled(job: Job, s: State, k: string)
    requires FsInv(job, s.fs, s.visited) && InSource(job, k)
    ensures DstOf(job, k) in s.fs ==> k in s.visited
  {
    DstOfIsUnder(job, k);
    if DstOf(job, k) in s.fs { assert DstOk(job, s.fs, s.visited, DstOf(job, k)); }
  }

  /** The listing names an entry that is neither directory nor regular file, and gives its type. */
  ghost predicate ListsSpecial(job: Job, dir: string, order: seq<DirEnt>) {
    exists j :: 0 <= j < |order| && SpecialEntry(job, dir, order[j])
  }

  predicate SpecialEntry(job: Job, dir: string, e: DirEnt) {
    e.name != "." && e.name != ".." && e.typeKnown && Join(dir, e.name) in job.fs && job.fs[Join(dir, e.name)].Special?
  }

  lemma {:induction false} CopyDirFails(job: Job, fs: Fs, dir: Item, order: seq<DirEnt>)
    requires forall i :: 0 <= i < |order| && order[i].name != "." && order[i].name != ".." ==>
               Join(dir.src, order[i].name) in fs && Join(dir.src, order[i].name) in job.fs &&
               fs[Join(dir.src, order[i].name)] == job.fs[Join(dir.src, order[i].name)]
    ensures CopyDir(fs, dir, order).0 <==> !ListsSpecial(job, dir.src, order)
    decreases |order|
  {
    hide Join;
    if order != [] {
      var rest := order[1..];
      CopyDirFails(job, fs, dir, rest);
      assert forall j :: 0 < j < |order| ==> order[j] == rest[j - 1];
      if ListsSpecial(job, dir.src, rest) {
        var j :| 0 <= j < |rest| && SpecialEntry(job, dir.src, rest[j]);
        assert SpecialEntry(job, dir.src, order[j + 1]);
      }
      assert SpecialEntry(job, dir.src, order[0]) ==> ListsSpecial(job, dir.src, order);
    }
  }

  /** Making and listing a directory fails exactly at such an entry. */
  lemma WalkDirFails(job: Job, s: State, order: seq<DirEnt>)
    requires ValidJob(job) && Inv(job, s) && !s.crashed
    requires s.wpc == Walking && s.queue != [] && s.queue[0].src in s.fs && s.fs[s.queue[0].src].Dir?
    requires IsListing(s.fs[s.queue[0].dst := Dir], s.queue[0].src, order)
    ensures WalkDir(s, order).crashed <==> ListsSpecial(job, s.queue[0].src, order)
  {
    hide ListsSpecial;
    var curr := s.queue[0];
    assert NodeOk(job, s.visited, curr);
    DstParentExists(job, s, curr.src);
    CopiedOnlyIfHandled(job, s, curr.src);
    var fs := s.fs[curr.dst := Dir];
    forall i | 0 <= i < |order| && order[i].name != "." && order[i].name != ".."
      ensures Join(curr.src, order[i].name) in fs && Join(curr.src, order[i].name) in job.fs
      ensures fs[Join(curr.src, order[i].name)] == job.fs[Join(curr.src, order[i].name)]
    {
      var k := Join(curr.src, order[i].name);
      DstOfJoin(job, curr.src, order[i].name);
      Disjoint(job, k);
    }
    CopyDirFails(job, fs, curr, order);
  }

  /** A batch of reads fails exactly if a file in it has a size that is negative as an `int`. */
  lemma {:induction false} ReadsFail(job: Job, s: State, n: nat)
    requires ValidJob(job) && Inv(job, s) && !s.crashed && n <= |s.readList|
    ensures SubmitReads(s, n).crashed <==> exists i :: 0 <= i < n && !Sizeable(job, s.readList[i].src)
    decreases n
  {
    hide Inv, ValidJob, Sizeable, SubmitReadOne;
    if n != 0 {
      var s' := SubmitReadOne(s);
      SubmitReadOneKeeps(job, s);
      if s'.crashed {
        assert !Sizeable(job, s.readList[0].src);
      } else {
        RestOfReads(s);
        ReadsFail(job, s', n - 1);
        assert forall i :: 0 < i < n ==> s.readList[i] == s'.readList[i - 1];
        assert forall i :: 0 <= i < n - 1 ==> s'.readList[i] == s.readList[i + 1];
      }
    }
  }

  lemma RestOfReads(s: State)
    requires s.readList != [] && !SubmitReadOne(s).crashed
    ensures SubmitReadOne(s).readList == s.readList[1..]
  {
  }

  /** What the source does not let the engine copy, met by this action. */
  ghost predicate Meets(job: Job, s: State, a: Action) {
    match a
    case WalkerMoves(order) =>
      s.wpc == Walking && s.queue != [] && s.queue[0].src in job.fs && job.fs[s.queue[0].src].Dir? &&
      ListsSpecial(job, s.queue[0].src, order)
    case AioMoves(_) =>
      s.apc == Reading &&
      exists i :: 0 <= i < |s.readList| && i < BatchSize(s.flush, s.readLen, job.readBatch) &&
                  !Sizeable(job, s.readList[i].src)
    case KernelFinishes(_) => false
  }

  /** The one way into an error, in every valid job and every interleaving: an entry the listing
      calls neither directory nor regular file, or a file whose size wraps to a negative number.
      No list is popped empty, no file is missing, no directory is made twice, every destination
      opens, every completed transfer has its full length. */
  lemma ErrorExact(job: Job, s: State, a: Action)
    requires ValidJob(job) && Inv(job, s) && Enabled(s, a)
    ensures Step(job, s, a).crashed <==> Meets(job, s, a)
  {
    match a
    case WalkerMoves(order) => WalkerErrors(job, s, order);
    case AioMoves(n) => AioErrors(job, s, n);
    case KernelFinishes(i) => KernelKeeps(job, s, i);
  }

  lemma WalkerErrors(job: Job, s: State, order: seq<DirEnt>)
    requires ValidJob(job) && Inv(job, s) && !s.crashed && WalkerEnabled(s, order)
    ensures WalkerStep(s, order).crashed <==> Meets(job, s, WalkerMoves(order))
  {
    hide Inv, ValidJob, IsListing, ListsSpecial, WalkDir;
    if s.queue != [] { HeadOk(job, s); }
    if s.wpc == Walking && s.queue != [] && s.fs[s.queue[0].src].Dir? { WalkDirFails(job, s, order); }
  }

  lemma AioErrors(job: Job, s: State, n: nat)
    requires ValidJob(job) && Inv(job, s) && !s.crashed && AioEnabled(s, n)
    ensures AioStep(job, s, n).crashed <==> Meets(job, s, AioMoves(n))
  {
    hide Inv, ValidJob, Sizeable, Drain, SubmitReads, SubmitWrites;
    LensAreSizes(job, s);
    match s.apc
    case Draining => DrainKeeps(job, s, n);
    case Reading =>
      ReadHead(job, s);
      ReadsFail(job, s, AtLeast0(BatchSize(s.flush, s.readLen, job.readBatch)));
    case Writing => SubmitWritesKeeps(job, s, AtLeast0(BatchSize(s.flush, s.writeLen, job.writeBatch)));
    case _ =>
  }

  /** No regular file has a size that is negative as a 32-bit number. */
  ghost predicate AllSizeable(job: Job) {
    forall k {:trigger Sizeable(job, k)} :: IsReg(job, k) ==> Sizeable(job, k)
  }

  /** Whether the file system fills in the types of directory entries. */
  predicate Types(a: Action, typed: bool) {
    a.WalkerMoves? ==> forall j :: 0 <= j < |a.order| ==> a.order[j].typeKnown == typed
  }

  /** Without types of entries there is only the size to fail at. */
  lemma UntypedMeetsNothing(job: Job, s: State, a: Action)
    requires ValidJob(job) && Inv(job, s) && AllSizeable(job) && Types(a, false)
    ensures !Meets(job, s, a)
  {
    forall i | 0 <= i < |s.readList| ensures Sizeable(job, s.readList[i].src) {
      assert Issued(job, s.visited, s.readList[i]);
    }
  }

  /** What the engine can get through: every size fits, and if entries have types, there is nothing
      but directories and regular files. */
  ghost predicate Copyable(job: Job, typed: bool) {
    if typed then GoodTree(job) else AllSizeable(job)
  }

  lemma CopyableSucceeds(job: Job, s: State, a: Action, typed: bool)
    requires ValidJob(job) && Inv(job, s) && Enabled(s, a) && Copyable(job, typed) && Types(a, typed)
    ensures !Step(job, s, a).crashed
  {
    ErrorExact(job, s, a);
    if typed { GoodMeetsNothing(job, s, a); } else { UntypedMeetsNothing(job, s, a); }
  }

  lemma GoodMeetsNothing(job: Job, s: State, a: Action)
    requires ValidJob(job) && Inv(job, s) && GoodTree(job)
    ensures !Meets(job, s, a)
  {
    if a.WalkerMoves? && s.queue != [] {
      var curr := s.queue[0];
      assert NodeOk(job, s.visited, curr);
      forall j | 0 <= j < |a.order| ensures !SpecialEntry(job, curr.src, a.order[j]) {
        DstOfJoin(job, curr.src, a.order[j].name);
        assert Join(curr.src, a.order[j].name) in job.fs ==> InSource(job, Join(curr.src, a.order[j].name));
      }
    }
    forall i | 0 <= i < |s.readList| ensures Sizeable(job, s.readList[i].src) {
      assert Issued(job, s.visited, s.readList[i]);
      assert InSource(job, s.readList[i].src);
    }
  }

  lemma StepSucceeds(job: Job, s: State, a: Action)
    requires ValidJob(job) && Inv(job, s) && GoodTree(job) && Enabled(s, a)
    ensures !Step(job, s, a).crashed
  {
    ErrorExact(job, s, a);
    GoodMeetsNothing(job, s, a);
  }

  lemma {:induction false} RunSucceeds(job: Job, s: State, acts: seq<Action>)
    requires ValidJob(job) && GoodTree(job) && Inv(job, s) && !s.crashed && Runs(job, s, acts)
    ensures !After(job, s, acts).crashed && Inv(job, After(job, s, acts))
    decreases |acts|
  {
    hide Inv, Step, Enabled;
    if acts != [] {
      StepKeeps(job, s, acts[0]);
      StepSucceeds(job, s, acts[0]);
      RunSucceeds(job, Step(job, s, acts[0]), acts[1..]);
    }
  }

  /** So a tree of directories and regular files without such sizes is safe from errors. */
  lemma NeverCrashes(job: Job, s: State)
    requires ValidJob(job) && GoodTree(job) && Reachable(job, s)
    ensures !s.crashed
  {
    hide Inv;
    var acts :| Runs(job, Init(job), acts) && After(job, Init(job), acts) == s;
    InitInv(job);
    RunSucceeds(job, Init(job), acts);
  }

  // ----- the destination at the end -----

  /** With the work list empty, every name of the source has been handled. */
  lemma {:induction false} AllHandled(job: Job, s: State, k: string)
    requires ValidJob(job) && WalkInv(job, s) && s.queue == [] && InSource(job, k)
    ensures k in s.visited
    decreases |k|
  {
    assert Known(s.visited, s.queue, k) by {
      if k != job.src {
        ParentOfDst(job, k);
        AllHandled(job, s, ParentOf(k));
      }
    }
  }

  /** When the AIO thread has left its loop, every request has been finished. */
  lemma AllFinished(job: Job, s: State, k: string)
    requires Inv(job, s) && s.apc == Exited && IsReg(job, k) && k in s.visited
    ensures exists i :: 0 <= i < |s.finished| && s.finished[i].src == k
    ensures s.readList == [] && s.inflight == [] && s.completed == [] && s.writeList == []
  {
    assert Names(s.readList) == Names(s.inflight) == Names(Requests(s.completed)) == Names(s.writeList) == multiset{};
    assert Pool(s) == Names(s.finished);
    assert k in Added(job, s.visited);
    NamesMember(s.finished, k);
  }

  /** The destination holds what the engine transfers for each name of the source, and nothing
      else; the rest of the file system is as before. */
  ghost predicate CopyDone(job: Job, fs: Fs) {
    && (forall k :: InSource(job, k) ==>
          match job.fs[k]
          case Dir => DstOf(job, k) in fs && fs[DstOf(job, k)] == Dir
          case Reg(_) => Sizeable(job, k) && DstOf(job, k) in fs && fs[DstOf(job, k)] == Reg(Content(job, k))
          case Special => DstOf(job, k) !in fs)
    && NothingElse(job, fs)
  }

  ghost predicate NothingElse(job: Job, fs: Fs) {
    && (forall x {:trigger SrcOf(job, x)} :: x in fs && Under(job.dst, x) ==> InSource(job, SrcOf(job, x)))
    && (forall x :: !Under(job.dst, x) ==> (x in fs <==> x in job.fs) && (x in fs ==> fs[x] == job.fs[x]))
  }

  /** The main result: however the two threads and the kernel were interleaved, in whatever order
      the transfers completed and whatever the batch sizes, when `main` gets back from
      `wait_for_aio_finish` the copy is complete. */
  lemma EndToEnd(job: Job, s: State)
    requires ValidJob(job) && Reachable(job, s) && !s.crashed && s.wpc == Returned
    ensures CopyDone(job, s.fs)
  {
    ReachableInv(job, s);
    forall k | InSource(job, k)
      ensures match job.fs[k]
              case Dir => DstOf(job, k) in s.fs && s.fs[DstOf(job, k)] == Dir
              case Reg(_) => Sizeable(job, k) && DstOf(job, k) in s.fs && s.fs[DstOf(job, k)] == Reg(Content(job, k))
              case Special => DstOf(job, k) !in s.fs
    {
      AllHandled(job, s, k);
      DstOfIsUnder(job, k);
      if DstOf(job, k) in s.fs { assert DstOk(job, s.fs, s.visited, DstOf(job, k)); }
      if job.fs[k].Reg? {
        AllFinished(job, s, k);
        var i :| 0 <= i < |s.finished| && s.finished[i].src == k;
        assert FinishedOk(job, s.fs, s.visited, s.finished[i]);
      }
    }
    forall x | x in s.fs && Under(job.dst, x) ensures InSource(job, SrcOf(job, x)) {
      assert DstOk(job, s.fs, s.visited, x);
    }
  }

  /** The destination equals the source, name by name and byte by byte. */
  ghost predicate SameTree(job: Job, fs: Fs) {
    && (forall k :: InSource(job, k) ==> DstOf(job, k) in fs && fs[DstOf(job, k)] == job.fs[k])
    && NothingElse(job, fs)
  }

  /** Nothing but directories and regular files whose sizes fit the 32-bit `fsize`. */
  ghost predicate FitsInt(job: Job) {
    forall k {:trigger InSource(job, k)} :: InSource(job, k) ==>
      !job.fs[k].Special? && (job.fs[k].Reg? ==> |job.fs[k].data| < 0x8000_0000)
  }

  lemma FitsIntIsGood(job: Job)
    requires FitsInt(job)
    ensures GoodTree(job)
  {
  }

  lemma FitsIsFaithful(job: Job, fs: Fs)
    requires CopyDone(job, fs) && FitsInt(job)
    ensures SameTree(job, fs)
  {
    hide NothingElse;
    forall k | InSource(job, k) ensures DstOf(job, k) in fs && fs[DstOf(job, k)] == job.fs[k] {
      if job.fs[k].Reg? {
        var data := job.fs[k].data;
        assert data[..|data|] == data;
      }
    }
  }

  lemma FaithfulFits(job: Job, fs: Fs)
    requires CopyDone(job, fs) && SameTree(job, fs)
    ensures FitsInt(job)
  {
    hide NothingElse;
    forall k | InSource(job, k)
      ensures !job.fs[k].Special? && (job.fs[k].Reg? ==> |job.fs[k].data| < 0x8000_0000)
    {
      if job.fs[k].Reg? {
        assert Content(job, k) == job.fs[k].data;
        assert Size(job, k) == |job.fs[k].data|;
      }
    }
  }

  /** A finished copy is faithful exactly when every file size fits `int fsize`: a larger file
      whose size wraps to a non-negative number is cut short without any error. */
  lemma FaithfulIff(job: Job, s: State)
    requires ValidJob(job) && Reachable(job, s) && !s.crashed && s.wpc == Returned
    ensures SameTree(job, s.fs) <==> FitsInt(job)
  {
    EndToEnd(job, s);
    hide CopyDone, SameTree, FitsInt, ValidJob;
    if FitsInt(job) { FitsIsFaithful(job, s.fs); }
    if SameTree(job, s.fs) { FaithfulFits(job, s.fs); }
  }

  /** One file of 2^32 bytes and a page. */
  function BigFile(): Job {
    Job(map["a" := Reg(seq(0x1_0000_1000, _ => 7 as Byte))], "a", "b", 8, 8)
  }

  lemma BigFileIsValid()
    ensures ValidJob(BigFile()) && GoodTree(BigFile()) && InSource(BigFile(), "a")
    ensures Size(BigFile(), "a") == 4096 && DstOf(BigFile(), "a") == "b"
  {
    var job := BigFile();
    assert LastSlash("b") == -1;
    assert ParentOf("b") == "";
    assert forall k :: k in job.fs ==> k == "a";
    assert !("a" + "/" <= "b") && !("b" + "/" <= "a");
    assert Int32(0x1_0000_1000) == 4096;
  }

  /** A concrete victim of the truncation: only the first page of the file is copied. */
  lemma BigFileCutShort(s: State)
    requires Reachable(BigFile(), s) && !s.crashed && s.wpc == Returned
    ensures "b" in s.fs && s.fs["b"].Reg? && s.fs["b"].data == BigFile().fs["a"].data[..4096]
    ensures |s.fs["b"].data| == 4096 && |BigFile().fs["a"].data| == 0x1_0000_1000
  {
    BigFileIsValid();
    EndToEnd(BigFile(), s);
  }
}
