/** What every step of the copy engine keeps. */
module CopyInvariants {
  import opened FileSystem
  import opened CopyEngine

  // ----- the walker's work list -----

  predicate Queued(queue: seq<Item>, k: string) {
    exists i :: 0 <= i < |queue| && queue[i].src == k
  }

  /** `k` has been handled, or waits in the list. */
  predicate Known(visited: set<string>, queue: seq<Item>, k: string) {
    k in visited || Queued(queue, k)
  }

  /** The walker reaches a node only from its parent. */
  predicate ParentHandled(job: Job, visited: set<string>, k: string) {
    InSource(job, k) && (k == job.src || ParentOf(k) in visited)
  }

  /** A node the walker may still hold: in the source, not handled, its parent handled. */
  predicate NodeOk(job: Job, visited: set<string>, item: Item) {
    && ParentHandled(job, visited, item.src)
    && item.dst == DstOf(job, item.src)
    && item.src !in visited
  }

  predicate DistinctNodes(queue: seq<Item>) {
    forall i, j :: 0 <= i < j < |queue| ==> queue[i].src != queue[j].src
  }

  ghost predicate WalkInv(job: Job, s: State) {
    && (forall i :: 0 <= i < |s.queue| ==> NodeOk(job, s.visited, s.queue[i]))
    && DistinctNodes(s.queue)
    && (forall k {:trigger ParentHandled(job, s.visited, k)} :: k in s.visited ==> ParentHandled(job, s.visited, k))
    && Known(s.visited, s.queue, job.src)
    && (forall k {:trigger Known(s.visited, s.queue, k)} ::
          InSource(job, k) && k != job.src && ParentOf(k) in s.visited ==> Known(s.visited, s.queue, k))
    && (s.wpc == Flushing || s.wpc == Joining || s.wpc == Returned ==> s.queue == [])
    && (s.wpc == Adding ==> s.queue != [] && IsReg(job, s.queue[0].src))
  }

  // ----- the file system -----

  /** A name beneath the destination copies a handled source name. */
  predicate DstOk(job: Job, fs: Fs, visited: set<string>, x: string)
    requires x in fs
  {
    var k := SrcOf(job, x);
    && k in visited
    && InSource(job, k)
    && match job.fs[k]
       case Dir => fs[x].Dir?
       case Reg(_) => fs[x] == Reg([]) || fs[x] == Reg(Content(job, k))
       case Special => false
  }

  ghost predicate FsInv(job: Job, fs: Fs, visited: set<string>) {
    && (forall x :: x in fs && !Under(job.dst, x) ==> x in job.fs && fs[x] == job.fs[x])
    && (forall x :: x in job.fs ==> x in fs && fs[x] == job.fs[x])
    && (forall x {:trigger DstOk(job, fs, visited, x)} :: x in fs && Under(job.dst, x) ==> DstOk(job, fs, visited, x))
    && (forall k {:trigger DstOf(job, k)} :: k in visited && k in job.fs && job.fs[k].Dir? ==> DstOf(job, k) in fs)
  }

  // ----- the requests -----

  predicate Issued(job: Job, visited: set<string>, r: Request) {
    r.src in visited && IsReg(job, r.src) && r.dst == DstOf(job, r.src)
  }

  predicate Sized(job: Job, visited: set<string>, r: Request) {
    Issued(job, visited, r) && 0 <= Size(job, r.src) == r.fsize
  }

  predicate Filled(job: Job, visited: set<string>, r: Request) {
    Sized(job, visited, r) && r.buffer == Content(job, r.src)
  }

  predicate Written(job: Job, fs: Fs, r: Request) {
    r.dst in fs && fs[r.dst] == Reg(Content(job, r.src))
  }

  predicate InflightOk(job: Job, fs: Fs, visited: set<string>, r: Request) {
    && Sized(job, visited, r)
    && (r.state == 1 || (r.state == 2 && Filled(job, visited, r) && r.dst in fs))
  }

  predicate CompletedOk(job: Job, fs: Fs, visited: set<string>, e: Event) {
    && Filled(job, visited, e.req)
    && e.res == e.req.fsize
    && (e.req.state == 1 || (e.req.state == 2 && Written(job, fs, e.req)))
  }

  predicate FinishedOk(job: Job, fs: Fs, visited: set<string>, r: Request) {
    Filled(job, visited, r) && Written(job, fs, r)
  }

  ghost predicate ReqInv(job: Job, s: State) {
    && (forall r :: r in s.readList ==> Issued(job, s.visited, r))
    && (forall r :: r in s.inflight ==> InflightOk(job, s.fs, s.visited, r))
    && (forall e :: e in s.completed ==> CompletedOk(job, s.fs, s.visited, e))
    && (forall r :: r in s.writeList ==> Filled(job, s.visited, r))
    && (forall r :: r in s.finished ==> FinishedOk(job, s.fs, s.visited, r))
  }

  // ----- the accounts -----

  function Names(rs: seq<Request>): multiset<string> {
    if rs == [] then multiset{} else multiset{rs[0].src} + Names(rs[1..])
  }

  function Writes(rs: seq<Request>): nat {
    if rs == [] then 0 else (if rs[0].state == 2 then 1 else 0) + Writes(rs[1..])
  }

  function Requests(es: seq<Event>): (rs: seq<Request>)
    ensures |rs| == |es|
    ensures forall i :: 0 <= i < |es| ==> rs[i] == es[i].req
  {
    seq(|es|, i requires 0 <= i < |es| => es[i].req)
  }

  /** The regular files the walker has handed over. */
  function Added(job: Job, visited: set<string>): set<string> {
    set k | k in visited && IsReg(job, k)
  }

  /** All requests, stage by stage. */
  function Pool(s: State): multiset<string> {
    Names(s.readList) + Names(s.inflight) + Names(Requests(s.completed)) + Names(s.writeList) + Names(s.finished)
  }

  ghost predicate CountInv(job: Job, s: State) {
    && s.readLen == |s.readList|
    && s.writeLen == |s.writeList|
    && s.finishedCount == |s.finished|
    && s.requestCount == |s.readList| + |s.inflight| + |s.completed| + |s.writeList| + |s.finished|
    && s.reqCount == s.requestCount + (if s.wpc == Adding then 1 else 0)
    && Pool(s) == multiset(Added(job, s.visited))
    && s.delivered == |s.writeList| + Writes(s.inflight) + Writes(Requests(s.completed)) + 2 * |s.finished|
  }

  ghost predicate FlushInv(s: State) {
    && (s.flush <==> s.wpc == Joining || s.wpc == Returned)
    && (s.apc == Exited ==> s.flush && s.reqCount == s.finishedCount)
    && (s.wpc == Returned ==> s.apc == Exited)
    && PhaseInv(s)
  }

  /** After the flag is up, the sections of a loop iteration leave less and less behind. */
  ghost predicate PhaseInv(s: State) {
    s.flush ==>
      && (s.apc == Reading || s.apc == Writing || s.apc == Unlocking ==> s.reqCount != s.finishedCount)
      && (s.apc == Writing || s.apc == Unlocking ==> s.readList == [])
      && (s.apc == Unlocking ==> s.writeList == [])
  }

  ghost predicate Inv(job: Job, s: State) {
    WalkInv(job, s) && FsInv(job, s.fs, s.visited) && ReqInv(job, s) && CountInv(job, s) && FlushInv(s)
  }

  // ----- names beneath the source and beneath the destination -----

  lemma Disjoint(job: Job, k: string)
    requires ValidJob(job) && Under(job.src, k)
    ensures !Under(job.dst, k)
  {
    if Under(job.dst, k) {
      UnderChain(job.src, job.dst, k);
    }
  }

  lemma DstOfIsUnder(job: Job, k: string)
    requires Under(job.src, k)
    ensures Under(job.dst, DstOf(job, k))
    ensures SrcOf(job, DstOf(job, k)) == k
  {
    if k != job.src {
      assert k[|job.src|] == '/' by { assert k[..|job.src| + 1] == job.src + "/"; }
      assert job.dst + "/" == DstOf(job, k)[..|job.dst| + 1];
    }
    assert k[..|job.src|] == job.src by {
      if k != job.src { assert k[..|job.src| + 1][..|job.src|] == k[..|job.src|]; }
    }
  }

  lemma DstOfJoin(job: Job, dir: string, name: string)
    requires Under(job.src, dir)
    ensures DstOf(job, Join(dir, name)) == Join(DstOf(job, dir), name)
    ensures Under(job.src, Join(dir, name))
  {
    assert job.src <= dir by {
      if dir != job.src { assert dir[..|job.src| + 1][..|job.src|] == dir[..|job.src|]; }
    }
    assert Join(dir, name)[|job.src|..] == dir[|job.src|..] + "/" + name;
    if dir != job.src {
      assert Join(dir, name)[..|job.src| + 1] == dir[..|job.src| + 1];
    } else {
      assert Join(dir, name)[..|job.src| + 1] == job.src + "/";
    }
  }

  /** The parent of a copy is the copy of the parent. */
  lemma ParentOfDst(job: Job, k: string)
    requires ValidJob(job) && InSource(job, k) && k != job.src
    ensures InSource(job, ParentOf(k)) && job.fs[ParentOf(k)].Dir?
    ensures ParentOf(DstOf(job, k)) == DstOf(job, ParentOf(k))
    ensures ChildOf(ParentOf(k), k) && |ParentOf(k)| < |k|
  {
    assert HangsFromDir(job.fs, k);
    ParentUnder(job.src, k);
    ChildIsJoin(ParentOf(k), k);
    DstOfJoin(job, ParentOf(k), BaseOf(k));
    ParentOfJoin(DstOf(job, ParentOf(k)), BaseOf(k));
  }

  /** Once a source name's parent is handled, the parent of its copy exists. */
  lemma DstParentExists(job: Job, s: State, k: string)
    requires ValidJob(job) && FsInv(job, s.fs, s.visited)
    requires ParentHandled(job, s.visited, k)
    ensures ParentExists(s.fs, DstOf(job, k))
  {
    if k == job.src {
      assert DstOf(job, k) == job.dst;
    } else {
      ParentOfDst(job, k);
      var p := ParentOf(k);
      DstOfIsUnder(job, p);
      assert DstOk(job, s.fs, s.visited, DstOf(job, p));
    }
  }

  // ----- sums over lists -----

  lemma NamesConcat(a: seq<Request>, b: seq<Request>)
    ensures Names(a + b) == Names(a) + Names(b)
    ensures Writes(a + b) == Writes(a) + Writes(b)
  {
    if a == [] {
      assert a + b == b;
    } else {
      assert (a + b)[1..] == a[1..] + b;
      NamesConcat(a[1..], b);
    }
  }

  lemma NamesHead(a: seq<Request>)
    requires a != []
    ensures Names(a) == multiset{a[0].src} + Names(a[1..])
    ensures Writes(a) == (if a[0].state == 2 then 1 else 0) + Writes(a[1..])
  {
  }

  lemma NamesPush(r: Request, a: seq<Request>)
    ensures Names([r] + a) == multiset{r.src} + Names(a)
    ensures Names(a + [r]) == multiset{r.src} + Names(a)
    ensures Writes(a + [r]) == (if r.state == 2 then 1 else 0) + Writes(a)
  {
    NamesConcat([r], a);
    NamesConcat(a, [r]);
    NamesHead([r]);
    assert [r][1..] == [];
  }

  lemma NamesSize(a: seq<Request>)
    ensures |Names(a)| == |a|
  {
  }

  lemma NamesMember(a: seq<Request>, k: string)
    ensures k in Names(a) <==> exists i :: 0 <= i < |a| && a[i].src == k
  {
    if a != [] {
      NamesMember(a[1..], k);
      if k in Names(a[1..]) {
        var i :| 0 <= i < |a[1..]| && a[1..][i].src == k;
        assert a[i + 1].src == k;
      }
      if i :| 0 <= i < |a| && a[i].src == k {
        if i > 0 { assert a[1..][i - 1].src == k; }
      }
    }
  }

  lemma NamesRemove(a: seq<Request>, i: nat)
    requires i < |a|
    ensures Names(a) == Names(a[..i] + a[i + 1..]) + multiset{a[i].src}
    ensures Writes(a) == Writes(a[..i] + a[i + 1..]) + (if a[i].state == 2 then 1 else 0)
  {
    var tail := a[i..];
    assert a == a[..i] + tail;
    assert tail[1..] == a[i + 1..];
    NamesConcat(a[..i], tail);
    NamesConcat(a[..i], a[i + 1..]);
  }

  lemma RequestsParts(es: seq<Event>, e: Event)
    ensures Requests(es + [e]) == Requests(es) + [e.req]
    ensures es != [] ==> Requests(es[1..]) == Requests(es)[1..]
  {
  }
}
