/** The copy engine as a transition system: the walker thread, the AIO thread and the kernel
    take turns, one step at a time, in any order.

    A step of the walker is one turn of the work-list loop, split at the one place where the
    other thread can look in (`req_count` is raised before the request is added).  A step of the
    AIO thread is one section of its loop body.  The kernel may finish any submitted request at
    any moment. */
module CopyEngine {
  import opened FileSystem

  datatype Request = Request(src: string, dst: string, fsize: int, buffer: seq<Byte>, state: int)

  /** A completion event: the request it belongs to and the byte count the kernel reports. */
  datatype Event = Event(req: Request, res: int)

  /** A node of the walker's work list. */
  datatype Item = Item(src: string, dst: string)

  /** What `readdir` reports: a name, and whether the file system filled in the file type. */
  datatype DirEnt = DirEnt(name: string, typeKnown: bool)

  datatype WalkerPc = Walking | Adding | Flushing | Joining | Returned
  datatype AioPc = Locking | Draining | Testing | Reading | Writing | Unlocking | Exited

  datatype State = State(
    fs: Fs,
    // the walker
    wpc: WalkerPc, queue: seq<Item>, reqCount: int,
    // the AIO manager
    apc: AioPc, readList: seq<Request>, writeList: seq<Request>,
    requestCount: int, readLen: int, writeLen: int, finishedCount: int, flush: bool,
    // the kernel
    inflight: seq<Request>, completed: seq<Event>,
    // what has happened so far, for stating properties
    visited: set<string>, finished: seq<Request>, delivered: int,
    // the process has ended with an error
    crashed: bool)

  datatype Job = Job(fs: Fs, src: string, dst: string, readBatch: int, writeBatch: int)

  datatype Action = WalkerMoves(order: seq<DirEnt>) | AioMoves(n: nat) | KernelFinishes(i: nat)

  function Init(job: Job): State {
    State(job.fs, Walking, [Item(job.src, job.dst)], 0,
          Locking, [], [], 0, 0, 0, 0, false,
          [], [], {}, [], 0, false)
  }

  function Crash(s: State): State {
    s.(crashed := true)
  }

  /** The value of `n` after assignment to a 32-bit `int`. */
  function Int32(n: int): int {
    var m := n % 0x1_0000_0000;
    if m < 0x8000_0000 then m else m - 0x1_0000_0000
  }

  function Min(a: int, b: int): int {
    if a < b then a else b
  }

  // ----- the walker -----

  function CopyReg(item: Item): Request {
    Request(item.src, item.dst, 0, [], 0)
  }

  /** The nodes `copy_dir` appends for the entries in `order`, and whether it got through them. */
  function CopyDir(fs: Fs, dir: Item, order: seq<DirEnt>): (bool, seq<Item>) {
    if order == [] then (true, [])
    else if order[0].name == "." || order[0].name == ".." then CopyDir(fs, dir, order[1..])
    else
      var kid := Item(Join(dir.src, order[0].name), Join(dir.dst, order[0].name));
      if order[0].typeKnown && kid.src in fs && fs[kid.src].Special? then (false, [])
      else
        var rest := CopyDir(fs, dir, order[1..]);
        (rest.0, [kid] + rest.1)
  }

  /** `order` is a listing of directory `dir`: every entry once, in any order, and possibly the
      two self references. */
  predicate IsListing(fs: Fs, dir: string, order: seq<DirEnt>) {
    && (forall i, j :: 0 <= i < j < |order| ==> order[i].name != order[j].name)
    && (forall i :: 0 <= i < |order| ==>
          order[i].name == "." || order[i].name == ".." ||
          (EntryName(order[i].name) && Join(dir, order[i].name) in fs))
    && (forall k :: k in fs && ChildOf(dir, k) ==> Listed(order, BaseOf(k)))
  }

  predicate Listed(order: seq<DirEnt>, name: string) {
    exists i :: 0 <= i < |order| && order[i].name == name
  }

  predicate FlushMutexFree(s: State) {
    s.apc == Locking || s.apc == Exited
  }

  ghost predicate WalkerEnabled(s: State, order: seq<DirEnt>) {
    match s.wpc
    case Walking =>
      s.queue != [] && s.queue[0].src in s.fs && s.fs[s.queue[0].src].Dir? ==>
        IsListing(s.fs[s.queue[0].dst := Dir], s.queue[0].src, order)
    case Adding => true
    case Flushing => FlushMutexFree(s)
    case Joining => s.apc == Exited
    case Returned => false
  }

  function WalkDir(s: State, order: seq<DirEnt>): State
    requires s.queue != []
  {
    var curr := s.queue[0];
    if curr.dst in s.fs || !ParentExists(s.fs, curr.dst) then Crash(s)
    else
      var fs := s.fs[curr.dst := Dir];
      var kids := CopyDir(fs, curr, order);
      if !kids.0 then Crash(s)
      else s.(fs := fs, queue := s.queue[1..] + kids.1, visited := s.visited + {curr.src})
  }

  function AddCopyReq(s: State): State
    requires s.queue != []
  {
    s.(requestCount := s.requestCount + 1,
       readLen := s.readLen + 1,
       readList := [CopyReg(s.queue[0])] + s.readList,
       queue := s.queue[1..],
       visited := s.visited + {s.queue[0].src},
       wpc := Walking)
  }

  function WalkerStep(s: State, order: seq<DirEnt>): State {
    match s.wpc
    case Walking =>
      if s.queue == [] then s.(wpc := Flushing)
      else if s.queue[0].src !in s.fs then Crash(s)
      else (
        match s.fs[s.queue[0].src]
        case Dir => WalkDir(s, order)
        case Reg(_) => s.(reqCount := s.reqCount + 1, wpc := Adding)
        case Special => s.(queue := s.queue[1..], visited := s.visited + {s.queue[0].src})
      )
    case Adding => if s.queue == [] then s else AddCopyReq(s)
    case Flushing => s.(flush := true, wpc := Joining)
    case Joining => s.(wpc := Returned)
    case Returned => s
  }

  // ----- the AIO thread -----

  /** One turn of the event loop, for the first completed event. */
  function DrainOne(s: State): State
    requires s.completed != []
  {
    var e := s.completed[0];
    var s1 := s.(completed := s.completed[1..], delivered := s.delivered + 1);
    if e.res != e.req.fsize then Crash(s1)
    else if e.req.state == 1 then
      s1.(writeList := [e.req] + s.writeList, writeLen := s.writeLen + 1)
    else if e.req.state == 2 then
      s1.(finished := s.finished + [e.req], finishedCount := s.finishedCount + 1)
    else s1
  }

  function Drain(s: State, n: nat): State
    decreases n
  {
    if n == 0 || s.crashed || s.completed == [] then s else Drain(DrainOne(s), n - 1)
  }

  /** Open, size and submit the request at the head of the read list. */
  function SubmitReadOne(s: State): State {
    if s.readList == [] then Crash(s)
    else
      var r := s.readList[0];
      if r.src !in s.fs || !s.fs[r.src].Reg? then Crash(s)
      else
        var fsize := Int32(|s.fs[r.src].data|);
        if fsize < 0 then Crash(s)
        else s.(readList := s.readList[1..], readLen := s.readLen - 1,
                inflight := s.inflight + [r.(fsize := fsize, state := 1)])
  }

  function SubmitReads(s: State, n: nat): State
    decreases n
  {
    if n == 0 || s.crashed then s else SubmitReads(SubmitReadOne(s), n - 1)
  }

  /** Open (creating it if need be) and submit the request at the head of the write list. */
  function SubmitWriteOne(s: State): State {
    if s.writeList == [] then Crash(s)
    else
      var r := s.writeList[0];
      if if r.dst in s.fs then !s.fs[r.dst].Reg? else !ParentExists(s.fs, r.dst) then Crash(s)
      else s.(fs := if r.dst in s.fs then s.fs else s.fs[r.dst := Reg([])],
              writeList := s.writeList[1..], writeLen := s.writeLen - 1,
              inflight := s.inflight + [r.(state := 2)])
  }

  function SubmitWrites(s: State, n: nat): State
    decreases n
  {
    if n == 0 || s.crashed then s else SubmitWrites(SubmitWriteOne(s), n - 1)
  }

  /** How many of `len` waiting requests to submit, given the batch size. */
  function BatchSize(flush: bool, len: int, batch: int): int {
    if flush then len else if len >= batch then batch else 0
  }

  function AtLeast0(n: int): nat {
    if n < 0 then 0 else n
  }

  ghost predicate AioEnabled(s: State, n: nat) {
    && s.apc != Exited
    && (s.apc == Draining ==> n <= 10 && n <= |s.completed|)
  }

  function AioStep(job: Job, s: State, n: nat): State {
    match s.apc
    case Locking => s.(apc := Draining)
    case Draining => Drain(s, n).(apc := Testing)
    case Testing => s.(apc := if s.flush && s.reqCount == s.finishedCount then Exited else Reading)
    case Reading => SubmitReads(s, AtLeast0(BatchSize(s.flush, s.readLen, job.readBatch))).(apc := Writing)
    case Writing => SubmitWrites(s, AtLeast0(BatchSize(s.flush, s.writeLen, job.writeBatch))).(apc := Unlocking)
    case Unlocking => s.(apc := Locking)
    case Exited => s
  }

  // ----- the kernel -----

  function Finish(fs: Fs, r: Request): (Fs, Event) {
    if r.state == 1 then
      if r.src in fs && fs[r.src].Reg? && 0 <= r.fsize then
        var bytes := fs[r.src].data[..Min(r.fsize, |fs[r.src].data|)];
        (fs, Event(r.(buffer := bytes), |bytes|))
      else (fs, Event(r, -1))
    else
      if r.dst in fs && fs[r.dst].Reg? && 0 <= r.fsize <= |r.buffer| then
        var was := fs[r.dst].data;
        (fs[r.dst := Reg(r.buffer[..r.fsize] + was[Min(r.fsize, |was|)..])], Event(r, r.fsize))
      else (fs, Event(r, -1))
  }

  function KernelStep(s: State, i: nat): State
    requires i < |s.inflight|
  {
    var done := Finish(s.fs, s.inflight[i]);
    s.(fs := done.0,
       inflight := s.inflight[..i] + s.inflight[i + 1..],
       completed := s.completed + [done.1])
  }

  // ----- runs -----

  ghost predicate Enabled(s: State, a: Action) {
    && !s.crashed
    && match a
       case WalkerMoves(order) => WalkerEnabled(s, order)
       case AioMoves(n) => AioEnabled(s, n)
       case KernelFinishes(i) => i < |s.inflight|
  }

  ghost function Step(job: Job, s: State, a: Action): State
    requires Enabled(s, a)
  {
    match a
    case WalkerMoves(order) => WalkerStep(s, order)
    case AioMoves(n) => AioStep(job, s, n)
    case KernelFinishes(i) => KernelStep(s, i)
  }

  /** Every action of `acts` is enabled when its turn comes, starting from `s`. */
  ghost predicate Runs(job: Job, s: State, acts: seq<Action>)
    decreases |acts|
  {
    acts == [] || (Enabled(s, acts[0]) && Runs(job, Step(job, s, acts[0]), acts[1..]))
  }

  ghost function After(job: Job, s: State, acts: seq<Action>): State
    requires Runs(job, s, acts)
    decreases |acts|
  {
    if acts == [] then s else After(job, Step(job, s, acts[0]), acts[1..])
  }

  // ----- jobs -----

  /** A finite source tree, and a fresh destination outside it whose parent exists. */
  ghost predicate ValidJob(job: Job) {
    && IsTree(job.fs, job.src)
    && !Under(job.src, job.dst)
    && job.dst != ""
    && (forall x :: x in job.fs ==> !Under(job.dst, x))
    && ParentExists(job.fs, job.dst)
  }

  predicate InSource(job: Job, k: string) {
    k in job.fs && Under(job.src, k)
  }

  /** Where the copy of source name `k` goes, and back. */
  function DstOf(job: Job, k: string): string {
    if |k| < |job.src| then k else job.dst + k[|job.src|..]
  }

  function SrcOf(job: Job, x: string): string {
    if |x| < |job.dst| then x else job.src + x[|job.dst|..]
  }

  predicate IsReg(job: Job, k: string) {
    InSource(job, k) && job.fs[k].Reg?
  }

  function Size(job: Job, k: string): int
    requires IsReg(job, k)
  {
    Int32(|job.fs[k].data|)
  }

  /** The bytes the engine transfers for source file `k`: as many as its 32-bit size says. */
  function Content(job: Job, k: string): seq<Byte> {
    if IsReg(job, k) && 0 <= Size(job, k) then job.fs[k].data[..Size(job, k)] else []
  }
}
