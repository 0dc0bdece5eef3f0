/** Each step of the walker keeps the invariant. */
module WalkerSteps {
  import opened FileSystem
  import opened CopyEngine
  import opened CopyInvariants

  // ----- the file system only grows towards the copy -----

  /** Names stay, and a file that already has its final content keeps it. */
  ghost predicate Grows(job: Job, fs: Fs, fs': Fs) {
    forall x :: x in fs ==> x in fs' && (fs[x] == Reg(Content(job, SrcOf(job, x))) ==> fs'[x] == fs[x])
  }

  lemma ReqInvGrows(job: Job, s: State, s': State)
    requires ReqInv(job, s)
    requires Grows(job, s.fs, s'.fs) && s.visited <= s'.visited
    requires s'.readList == s.readList && s'.inflight == s.inflight && s'.completed == s.completed
    requires s'.writeList == s.writeList && s'.finished == s.finished
    ensures ReqInv(job, s')
  {
    forall e | e in s'.completed ensures CompletedOk(job, s'.fs, s'.visited, e) {
      assert CompletedOk(job, s.fs, s.visited, e);
      DstOfIsUnder(job, e.req.src);
    }
    forall r | r in s'.finished ensures FinishedOk(job, s'.fs, s'.visited, r) {
      assert FinishedOk(job, s.fs, s.visited, r);
      DstOfIsUnder(job, r.src);
    }
    forall r | r in s'.inflight ensures InflightOk(job, s'.fs, s'.visited, r) {
      assert InflightOk(job, s.fs, s.visited, r);
    }
  }

  // ----- the walker -----

  /** What `copy_dir` appends: one node for each entry of the directory, none twice. */
  predicate MadeFrom(dir: Item, e: DirEnt, item: Item) {
    e.name != "." && e.name != ".." && item == Item(Join(dir.src, e.name), Join(dir.dst, e.name))
  }

  lemma CopyDirNodes(fs: Fs, dir: Item, order: seq<DirEnt>, i: nat)
    requires forall i, j :: 0 <= i < j < |order| ==> order[i].name != order[j].name
    requires i < |CopyDir(fs, dir, order).1|
    ensures exists j :: 0 <= j < |order| && MadeFrom(dir, order[j], CopyDir(fs, dir, order).1[i])
  {
    hide MadeFrom;
    var rest := order[1..];
    if order[0].name == "." || order[0].name == ".." {
      CopyDirNodes(fs, dir, rest, i);
      var j :| 0 <= j < |rest| && MadeFrom(dir, rest[j], CopyDir(fs, dir, rest).1[i]);
      assert order[j + 1] == rest[j];
    } else if i == 0 {
      assert MadeFrom(dir, order[0], CopyDir(fs, dir, order).1[0]) by { FirstMade(fs, dir, order); }
    } else {
      CopyDirNodes(fs, dir, rest, i - 1);
      var j :| 0 <= j < |rest| && MadeFrom(dir, rest[j], CopyDir(fs, dir, rest).1[i - 1]);
      assert order[j + 1] == rest[j];
    }
  }

  lemma FirstMade(fs: Fs, dir: Item, order: seq<DirEnt>)
    requires order != [] && order[0].name != "." && order[0].name != ".."
    requires CopyDir(fs, dir, order).1 != []
    ensures MadeFrom(dir, order[0], CopyDir(fs, dir, order).1[0])
  {
  }

  lemma CopyDirDistinct(fs: Fs, dir: Item, order: seq<DirEnt>, i: nat, j: nat)
    requires forall i, j :: 0 <= i < j < |order| ==> order[i].name != order[j].name
    requires i < j < |CopyDir(fs, dir, order).1|
    ensures CopyDir(fs, dir, order).1[i].src != CopyDir(fs, dir, order).1[j].src
  {
    var rest := order[1..];
    if order[0].name == "." || order[0].name == ".." {
      CopyDirDistinct(fs, dir, rest, i, j);
    } else if i > 0 {
      CopyDirDistinct(fs, dir, rest, i - 1, j - 1);
    } else {
      CopyDirNodes(fs, dir, rest, j - 1);
      var m :| 0 <= m < |rest| && MadeFrom(dir, rest[m], CopyDir(fs, dir, rest).1[j - 1]);
      assert order[0].name != order[m + 1].name;
      var a, b := Join(dir.src, order[0].name), Join(dir.src, rest[m].name);
      assert a[|dir.src| + 1..] == order[0].name && b[|dir.src| + 1..] == rest[m].name;
    }
  }

  lemma CopyDirComplete(fs: Fs, dir: Item, order: seq<DirEnt>, j: nat)
    requires CopyDir(fs, dir, order).0
    requires j < |order| && order[j].name != "." && order[j].name != ".."
    ensures exists i :: 0 <= i < |CopyDir(fs, dir, order).1| &&
                        CopyDir(fs, dir, order).1[i].src == Join(dir.src, order[j].name)
  {
    var rest := order[1..];
    var kids := CopyDir(fs, dir, order).1;
    if j > 0 {
      CopyDirComplete(fs, dir, rest, j - 1);
      var sub := CopyDir(fs, dir, rest).1;
      var i :| 0 <= i < |sub| && sub[i].src == Join(dir.src, rest[j - 1].name);
      if order[0].name == "." || order[0].name == ".." {
        assert kids[i].src == sub[i].src;
      } else {
        assert kids[i + 1].src == sub[i].src;
      }
    } else {
      assert kids[0].src == Join(dir.src, order[0].name);
    }
  }

  /** The nodes a directory contributes: its children, none missing, none twice. */
  ghost predicate KidsOf(job: Job, dir: string, visited: set<string>, kids: seq<Item>) {
    && (forall i :: 0 <= i < |kids| ==> NodeOk(job, visited, kids[i]) && ChildOf(dir, kids[i].src))
    && DistinctNodes(kids)
    && (forall k {:trigger Queued(kids, k)} :: k in job.fs && ChildOf(dir, k) ==> Queued(kids, k))
  }

  lemma QueuedStays(queue: seq<Item>, kids: seq<Item>, k: string)
    requires queue != []
    ensures Queued(queue, k) && k != queue[0].src ==> Queued(queue[1..] + kids, k)
    ensures Queued(kids, k) ==> Queued(queue[1..] + kids, k)
  {
    if i :| 0 <= i < |queue| && queue[i].src == k && k != queue[0].src {
      assert (queue[1..] + kids)[i - 1].src == k;
    }
    if i :| 0 <= i < |kids| && kids[i].src == k {
      assert (queue[1..] + kids)[|queue| - 1 + i].src == k;
    }
  }

  /** The root is nobody's child within the source. */
  lemma ChildNotRoot(job: Job, dir: string, k: string)
    requires Under(job.src, dir) && ChildOf(dir, k)
    ensures k != job.src
  {
    assert |k| > |dir|;
    assert |dir| >= |job.src| by { if dir != job.src { assert dir[..|job.src| + 1] == job.src + "/"; } }
  }

  lemma PopNodesOk(job: Job, s: State, kids: seq<Item>)
    requires WalkInv(job, s) && s.queue != []
    requires KidsOf(job, s.queue[0].src, s.visited + {s.queue[0].src}, kids)
    ensures forall i :: 0 <= i < |s.queue[1..] + kids| ==>
              NodeOk(job, s.visited + {s.queue[0].src}, (s.queue[1..] + kids)[i])
    ensures DistinctNodes(s.queue[1..] + kids)
  {
    var curr := s.queue[0].src;
    var rest := s.queue[1..];
    assert NodeOk(job, s.visited, s.queue[0]);
    forall i | 0 <= i < |rest| ensures NodeOk(job, s.visited + {curr}, rest[i]) {
      assert NodeOk(job, s.visited, s.queue[i + 1]);
    }
    forall i, j | 0 <= i < |rest| && 0 <= j < |kids| ensures rest[i].src != kids[j].src {
      assert NodeOk(job, s.visited, s.queue[i + 1]);
      ChildIsJoin(curr, kids[j].src);
      ChildNotRoot(job, curr, kids[j].src);
    }
  }

  /** Handling the node at the head of the list keeps the list complete. */
  lemma WalkInvPop(job: Job, s: State, s': State, kids: seq<Item>)
    requires ValidJob(job) && WalkInv(job, s) && s.queue != []
    requires KidsOf(job, s.queue[0].src, s.visited + {s.queue[0].src}, kids)
    requires s'.queue == s.queue[1..] + kids && s'.visited == s.visited + {s.queue[0].src}
    requires s'.wpc == Walking
    ensures WalkInv(job, s')
  {
    var curr := s.queue[0].src;
    assert NodeOk(job, s.visited, s.queue[0]);
    PopNodesOk(job, s, kids);
    forall k | k in s'.visited ensures ParentHandled(job, s'.visited, k) {
      assert ParentHandled(job, s.visited, k);
    }
    forall k | InSource(job, k) && k != job.src && ParentOf(k) in s'.visited
      ensures Known(s'.visited, s'.queue, k)
    {
      QueuedStays(s.queue, kids, k);
      if ParentOf(k) in s.visited {
        assert Known(s.visited, s.queue, k);
      } else {
        ParentOfDst(job, k);
        assert Queued(kids, k);
      }
    }
    QueuedStays(s.queue, kids, job.src);
  }

  lemma KidAt(job: Job, s: State, fs: Fs, order: seq<DirEnt>, i: nat)
    requires ValidJob(job) && WalkInv(job, s) && s.queue != []
    requires forall x :: x in fs && !Under(job.dst, x) ==> x in job.fs && fs[x] == job.fs[x]
    requires IsListing(fs, s.queue[0].src, order)
    requires i < |CopyDir(fs, s.queue[0], order).1|
    ensures var kid := CopyDir(fs, s.queue[0], order).1[i];
            NodeOk(job, s.visited + {s.queue[0].src}, kid) && ChildOf(s.queue[0].src, kid.src)
  {
    var curr := s.queue[0];
    CopyDirNodes(fs, curr, order, i);
    var j :| 0 <= j < |order| && MadeFrom(curr, order[j], CopyDir(fs, curr, order).1[i]);
    KidOk(job, s, fs, order[j].name);
  }

  lemma KidListed(fs: Fs, curr: Item, order: seq<DirEnt>, k: string)
    requires IsListing(fs, curr.src, order)
    requires CopyDir(fs, curr, order).0
    requires k in fs && ChildOf(curr.src, k)
    ensures Queued(CopyDir(fs, curr, order).1, k)
  {
    ChildIsJoin(curr.src, k);
    assert Listed(order, BaseOf(k));
    var j :| 0 <= j < |order| && order[j].name == BaseOf(k);
    CopyDirComplete(fs, curr, order, j);
  }

  /** The nodes appended for a directory are its children, ready to be handled. */
  lemma KidsOk(job: Job, s: State, fs: Fs, order: seq<DirEnt>)
    requires ValidJob(job) && WalkInv(job, s) && s.queue != []
    requires forall x :: x in job.fs ==> x in fs
    requires forall x :: x in fs && !Under(job.dst, x) ==> x in job.fs && fs[x] == job.fs[x]
    requires IsListing(fs, s.queue[0].src, order)
    requires CopyDir(fs, s.queue[0], order).0
    ensures KidsOf(job, s.queue[0].src, s.visited + {s.queue[0].src}, CopyDir(fs, s.queue[0], order).1)
  {
    var curr := s.queue[0];
    var kids := CopyDir(fs, curr, order).1;
    forall i | 0 <= i < |kids|
      ensures NodeOk(job, s.visited + {curr.src}, kids[i]) && ChildOf(curr.src, kids[i].src)
    {
      KidAt(job, s, fs, order, i);
    }
    assert DistinctNodes(kids) by {
      forall i, j | 0 <= i < j < |kids| ensures kids[i].src != kids[j].src {
        CopyDirDistinct(fs, curr, order, i, j);
      }
    }
    forall k | k in job.fs && ChildOf(curr.src, k) ensures Queued(kids, k) {
      KidListed(fs, curr, order, k);
    }
  }

  lemma KidOk(job: Job, s: State, fs: Fs, name: string)
    requires ValidJob(job) && WalkInv(job, s) && s.queue != []
    requires forall x :: x in fs && !Under(job.dst, x) ==> x in job.fs && fs[x] == job.fs[x]
    requires EntryName(name) && Join(s.queue[0].src, name) in fs
    ensures NodeOk(job, s.visited + {s.queue[0].src}, Item(Join(s.queue[0].src, name), Join(s.queue[0].dst, name)))
    ensures ChildOf(s.queue[0].src, Join(s.queue[0].src, name))
  {
    var curr := s.queue[0];
    var k := Join(curr.src, name);
    assert NodeOk(job, s.visited, curr);
    DstOfJoin(job, curr.src, name);
    JoinIsChild(curr.src, name);
    ParentOfJoin(curr.src, name);
    Disjoint(job, k);
    ChildNotRoot(job, curr.src, k);
    assert k in s.visited ==> ParentHandled(job, s.visited, k);
  }

  /** Handling a node leaves earlier copies as they were. */
  lemma FsInvVisit(job: Job, fs: Fs, visited: set<string>, k: string)
    requires FsInv(job, fs, visited)
    requires k in job.fs && !job.fs[k].Dir?
    ensures FsInv(job, fs, visited + {k})
  {
    forall x | x in fs && Under(job.dst, x) ensures DstOk(job, fs, visited + {k}, x) {
      assert DstOk(job, fs, visited, x);
    }
  }

  /** Putting entry `e` under destination name `x`, where it belongs. */
  lemma PutKeeps(job: Job, fs: Fs, visited: set<string>, k: string, e: Entry)
    requires ValidJob(job) && FsInv(job, fs, visited)
    requires InSource(job, k) && DstOk(job, fs[DstOf(job, k) := e], visited + {k}, DstOf(job, k))
    ensures FsInv(job, fs[DstOf(job, k) := e], visited + {k})
  {
    hide Under, SrcOf, DstOf, Content;
    var x := DstOf(job, k);
    var fs', visited' := fs[x := e], visited + {k};
    DstOfIsUnder(job, k);
    forall y | y in fs' && Under(job.dst, y) ensures DstOk(job, fs', visited', y) {
      if y != x { assert DstOk(job, fs, visited, y); }
    }
    forall j | j in visited' && j in job.fs && job.fs[j].Dir? ensures DstOf(job, j) in fs' {
    }
  }

  lemma MkdirKeeps(job: Job, fs: Fs, visited: set<string>, k: string)
    requires ValidJob(job) && FsInv(job, fs, visited)
    requires InSource(job, k) && job.fs[k].Dir? && DstOf(job, k) !in fs
    ensures FsInv(job, fs[DstOf(job, k) := Dir], visited + {k})
    ensures Grows(job, fs, fs[DstOf(job, k) := Dir])
  {
    hide FsInv;
    DstOfIsUnder(job, k);
    PutKeeps(job, fs, visited, k, Dir);
  }

  lemma WalkDirKeeps(job: Job, s: State, s': State, kids: seq<Item>)
    requires ValidJob(job) && WalkInv(job, s) && FsInv(job, s.fs, s.visited)
    requires s.queue != [] && s.queue[0].src in job.fs && job.fs[s.queue[0].src].Dir?
    requires s.queue[0].dst !in s.fs && s'.fs == s.fs[s.queue[0].dst := Dir]
    requires KidsOf(job, s.queue[0].src, s.visited + {s.queue[0].src}, kids)
    requires s'.queue == s.queue[1..] + kids && s'.wpc == Walking
    requires s'.visited == s.visited + {s.queue[0].src}
    ensures WalkInv(job, s') && FsInv(job, s'.fs, s'.visited)
    ensures Grows(job, s.fs, s'.fs)
  {
    assert NodeOk(job, s.visited, s.queue[0]);
    MkdirKeeps(job, s.fs, s.visited, s.queue[0].src);
    WalkInvPop(job, s, s', kids);
  }

  /** Nothing is added to the accounts when the node handled is not a regular file. */
  lemma CountKeeps(job: Job, s: State, s': State)
    requires CountInv(job, s) && s.wpc == s'.wpc == Walking && s.queue != []
    requires !IsReg(job, s.queue[0].src)
    requires s' == s.(fs := s'.fs, queue := s'.queue, visited := s.visited + {s.queue[0].src})
    ensures CountInv(job, s')
  {
    hide Names, Requests, Writes, IsReg;
    assert Added(job, s'.visited) == Added(job, s.visited);
  }

  /** Only a directory has children. */
  lemma ChildHasDir(job: Job, dir: string, k: string)
    requires ValidJob(job) && InSource(job, dir) && k in job.fs && ChildOf(dir, k)
    ensures job.fs[dir].Dir?
  {
    ChildIsJoin(dir, k);
    DstOfJoin(job, dir, BaseOf(k));
    ChildNotRoot(job, dir, k);
    assert HangsFromDir(job.fs, k);
  }

  lemma WalkFileKeeps(job: Job, s: State, s': State)
    requires ValidJob(job) && WalkInv(job, s) && FsInv(job, s.fs, s.visited)
    requires s.queue != [] && !job.fs[s.queue[0].src].Dir?
    requires s'.fs == s.fs && s'.queue == s.queue[1..] && s'.wpc == Walking
    requires s'.visited == s.visited + {s.queue[0].src}
    ensures WalkInv(job, s') && FsInv(job, s'.fs, s'.visited)
  {
    var curr := s.queue[0];
    assert NodeOk(job, s.visited, curr);
    forall k | k in job.fs && ChildOf(curr.src, k) ensures false {
      ChildHasDir(job, curr.src, k);
    }
    assert KidsOf(job, curr.src, s'.visited, []);
    WalkInvPop(job, s, s', []);
    FsInvVisit(job, s.fs, s.visited, curr.src);
  }

  lemma AddedGrows(job: Job, s: State)
    requires CountInv(job, s) && s.wpc == Adding && s.queue != []
    requires IsReg(job, s.queue[0].src) && s.queue[0].src !in s.visited
    ensures CountInv(job, AddCopyReq(s))
  {
    hide Names, Writes, Requests;
    var curr := s.queue[0];
    var s' := AddCopyReq(s);
    assert Added(job, s'.visited) == Added(job, s.visited) + {curr.src};
    NamesPush(CopyReg(curr), s.readList);
    hide Added;
    assert Pool(s') == Pool(s) + multiset{curr.src};
  }

  lemma AddCopyReqKeeps(job: Job, s: State)
    requires ValidJob(job) && Inv(job, s)
    requires s.wpc == Adding
    ensures Inv(job, AddCopyReq(s))
  {
    var curr := s.queue[0];
    var s' := AddCopyReq(s);
    assert NodeOk(job, s.visited, curr);
    WalkFileKeeps(job, s, s');
    AddedGrows(job, s);
    AddedReqInv(job, s);
  }

  lemma AddedReqInv(job: Job, s: State)
    requires s.queue != [] && ReqInv(job, s)
    requires IsReg(job, s.queue[0].src) && s.queue[0].dst == DstOf(job, s.queue[0].src)
    ensures ReqInv(job, AddCopyReq(s))
  {
    var mid := s.(visited := s.visited + {s.queue[0].src});
    ReqInvGrows(job, s, mid);
  }

  lemma WalkDirStepKeeps(job: Job, s: State, order: seq<DirEnt>)
    requires ValidJob(job) && Inv(job, s)
    requires s.wpc == Walking && s.queue != [] && s.queue[0].src in s.fs && s.fs[s.queue[0].src].Dir?
    requires IsListing(s.fs[s.queue[0].dst := Dir], s.queue[0].src, order)
    requires !WalkDir(s, order).crashed
    ensures Inv(job, WalkDir(s, order))
  {
    var s' := WalkDir(s, order);
    assert NodeOk(job, s.visited, s.queue[0]);
    MkdirKeeps(job, s.fs, s.visited, s.queue[0].src);
    KidsOk(job, s, s'.fs, order);
    WalkDirKeeps(job, s, s', CopyDir(s'.fs, s.queue[0], order).1);
    ReqInvGrows(job, s, s');
    CountKeeps(job, s, s');
  }

  lemma WalkSpecialKeeps(job: Job, s: State, order: seq<DirEnt>)
    requires ValidJob(job) && Inv(job, s)
    requires s.wpc == Walking && s.queue != [] && s.queue[0].src in s.fs && s.fs[s.queue[0].src].Special?
    ensures Inv(job, WalkerStep(s, order))
  {
    var s' := WalkerStep(s, order);
    assert NodeOk(job, s.visited, s.queue[0]);
    WalkFileKeeps(job, s, s');
    ReqInvGrows(job, s, s');
    CountKeeps(job, s, s');
  }

  lemma HeadOk(job: Job, s: State)
    requires Inv(job, s) && s.queue != []
    ensures NodeOk(job, s.visited, s.queue[0])
    ensures s.queue[0].src in s.fs && s.fs[s.queue[0].src] == job.fs[s.queue[0].src]
  {
    assert NodeOk(job, s.visited, s.queue[0]);
  }

  lemma WalkInvPc(job: Job, s: State, s': State)
    requires WalkInv(job, s) && s'.queue == s.queue && s'.visited == s.visited
    requires s'.wpc == Flushing || s'.wpc == Joining || s'.wpc == Returned ==> s.queue == []
    requires s'.wpc == Adding ==> s.queue != [] && IsReg(job, s.queue[0].src)
    ensures WalkInv(job, s')
  {
  }

  /** The steps of the walker that touch no list. */
  lemma WalkerPcKeeps(job: Job, s: State, s': State)
    requires Inv(job, s)
    requires s' == s.(wpc := s'.wpc, reqCount := s'.reqCount, flush := s'.flush)
    requires s'.reqCount == s.requestCount + (if s'.wpc == Adding then 1 else 0)
    requires s'.wpc == Flushing || s'.wpc == Joining || s'.wpc == Returned ==> s.queue == []
    requires s'.wpc == Adding ==> s.queue != [] && IsReg(job, s.queue[0].src)
    requires FlushInv(s')
    ensures Inv(job, s')
  {
    WalkInvPc(job, s, s');
    hide WalkInv, FsInv, FlushInv, Pool, Added, Writes, Requests;
    ReqInvGrows(job, s, s');
  }

  lemma PcFacts(job: Job, s: State)
    requires Inv(job, s)
    ensures FlushInv(s) && s.reqCount == s.requestCount + (if s.wpc == Adding then 1 else 0)
    ensures s.wpc == Flushing || s.wpc == Joining || s.wpc == Returned ==> s.queue == []
    ensures s.wpc == Adding ==> s.queue != []
  {
  }

  lemma WalkerPcStep(job: Job, s: State, order: seq<DirEnt>)
    requires Inv(job, s) && WalkerEnabled(s, order)
    requires s.wpc != Adding
    requires s.wpc == Walking && s.queue != [] ==>
               IsReg(job, s.queue[0].src) && s.queue[0].src in s.fs && s.fs[s.queue[0].src].Reg?
    ensures Inv(job, WalkerStep(s, order))
  {
    hide Inv, IsListing;
    PcFacts(job, s);
    WalkerPcKeeps(job, s, WalkerStep(s, order));
  }

  lemma WalkerKeeps(job: Job, s: State, order: seq<DirEnt>)
    requires ValidJob(job) && Inv(job, s)
    requires WalkerEnabled(s, order)
    requires !WalkerStep(s, order).crashed
    ensures Inv(job, WalkerStep(s, order))
  {
    hide Inv, ValidJob, IsListing;
    if s.wpc == Walking && s.queue != [] {
      HeadOk(job, s);
      match s.fs[s.queue[0].src]
      case Dir => WalkDirStepKeeps(job, s, order);
      case Reg(_) => WalkerPcStep(job, s, order);
      case Special => WalkSpecialKeeps(job, s, order);
    } else if s.wpc == Adding {
      PcFacts(job, s);
      AddCopyReqKeeps(job, s);
    } else {
      WalkerPcStep(job, s, order);
    }
  }
}
