/** Each step of the AIO thread and of the kernel keeps the invariant. */
module AioSteps {
  import opened FileSystem
  import opened CopyEngine
  import opened CopyInvariants
  import opened WalkerSteps

  // ----- the event loop -----

  lemma DrainOneCounts(job: Job, s: State)
    requires CountInv(job, s) && s.completed != []
    requires s.completed[0].res == s.completed[0].req.fsize
    requires s.completed[0].req.state == 1 || s.completed[0].req.state == 2
    ensures CountInv(job, DrainOne(s))
  {
    hide Names, Writes, Added, Requests;
    var r := s.completed[0].req;
    var s' := DrainOne(s);
    RequestsParts(s.completed, s.completed[0]);
    NamesHead(Requests(s.completed));
    NamesPush(r, s.writeList);
    NamesPush(r, s.finished);
    assert Pool(s') == Pool(s);
  }

  lemma DrainOneReqs(job: Job, s: State)
    requires ReqInv(job, s) && s.completed != []
    ensures ReqInv(job, DrainOne(s))
  {
    assert CompletedOk(job, s.fs, s.visited, s.completed[0]);
  }

  lemma DrainOneKeeps(job: Job, s: State)
    requires Inv(job, s) && s.completed != [] && !s.crashed && s.apc == Draining
    ensures Inv(job, DrainOne(s)) && !DrainOne(s).crashed && DrainOne(s).apc == Draining
  {
    var e := s.completed[0];
    assert CompletedOk(job, s.fs, s.visited, e);
    DrainOneCounts(job, s);
    DrainOneReqs(job, s);
  }

  lemma {:induction false} DrainKeeps(job: Job, s: State, n: nat)
    requires Inv(job, s) && !s.crashed && s.apc == Draining
    ensures Inv(job, Drain(s, n)) && !Drain(s, n).crashed && Drain(s, n).apc == Draining
    decreases n
  {
    hide Inv;
    if n != 0 && s.completed != [] {
      DrainOneKeeps(job, s);
      DrainKeeps(job, DrainOne(s), n - 1);
    }
  }

  // ----- submitting reads -----

  /** The one thing that can go wrong: a size that is negative as a 32-bit number. */
  predicate Sizeable(job: Job, k: string) {
    IsReg(job, k) && 0 <= Size(job, k)
  }

  lemma SubmitReadOneCounts(job: Job, s: State)
    requires CountInv(job, s) && s.readList != [] && !SubmitReadOne(s).crashed
    ensures CountInv(job, SubmitReadOne(s))
  {
    hide Names, Writes, Added, Requests;
    var r := s.readList[0];
    var s' := SubmitReadOne(s);
    NamesHead(s.readList);
    NamesPush(s'.inflight[|s.inflight|], s.inflight);
    assert Pool(s') == Pool(s);
  }

  lemma SubmitReadOneReqs(job: Job, s: State)
    requires ReqInv(job, s) && s.readList != [] && !SubmitReadOne(s).crashed
    requires Sizeable(job, s.readList[0].src) && s.fs[s.readList[0].src] == job.fs[s.readList[0].src]
    ensures ReqInv(job, SubmitReadOne(s))
  {
    var s' := SubmitReadOne(s);
    assert Issued(job, s.visited, s.readList[0]);
    assert InflightOk(job, s.fs, s.visited, s'.inflight[|s.inflight|]);
  }

  lemma SubmitReadOneKeeps(job: Job, s: State)
    requires ValidJob(job) && Inv(job, s) && s.readList != [] && !s.crashed
    ensures SubmitReadOne(s).crashed <==> !Sizeable(job, s.readList[0].src)
    ensures !SubmitReadOne(s).crashed ==>
              Inv(job, SubmitReadOne(s).(apc := s.apc)) && SubmitReadOne(s).apc == s.apc &&
              SubmitReadOne(s).readLen == s.readLen - 1 && SubmitReadOne(s).flush == s.flush
  {
    var r := s.readList[0];
    assert Issued(job, s.visited, r);
    assert r.src in job.fs && s.fs[r.src] == job.fs[r.src];
    var s' := SubmitReadOne(s);
    if !s'.crashed {
      SubmitReadOneCounts(job, s);
      SubmitReadOneReqs(job, s);
    }
  }

  lemma ReadHead(job: Job, s: State)
    requires Inv(job, s)
    ensures s.readLen == |s.readList|
    ensures s.readList != [] ==> IsReg(job, s.readList[0].src)
  {
    if s.readList != [] { assert Issued(job, s.visited, s.readList[0]); }
  }

  lemma WriteHead(job: Job, s: State)
    requires Inv(job, s)
    ensures s.writeLen == |s.writeList|
  {
  }

  lemma {:induction false} SubmitReadsKeeps(job: Job, s: State, n: nat)
    requires ValidJob(job) && Inv(job, s) && !s.crashed && n <= s.readLen
    ensures !SubmitReads(s, n).crashed ==>
              Inv(job, SubmitReads(s, n)) && SubmitReads(s, n).apc == s.apc &&
              SubmitReads(s, n).readLen == s.readLen - n && SubmitReads(s, n).flush == s.flush
    ensures (forall k :: IsReg(job, k) ==> Sizeable(job, k)) ==> !SubmitReads(s, n).crashed
    decreases n
  {
    hide Inv, ValidJob, SubmitReadOne;
    if n != 0 {
      ReadHead(job, s);
      SubmitReadOneKeeps(job, s);
      if !SubmitReadOne(s).crashed {
        SubmitReadsKeeps(job, SubmitReadOne(s), n - 1);
      }
    }
  }

  // ----- submitting writes -----

  lemma OpenKeeps(job: Job, s: State, r: Request)
    requires ValidJob(job) && FsInv(job, s.fs, s.visited)
    requires Issued(job, s.visited, r) && r.dst !in s.fs
    ensures FsInv(job, s.fs[r.dst := Reg([])], s.visited)
    ensures Grows(job, s.fs, s.fs[r.dst := Reg([])])
  {
    hide FsInv;
    DstOfIsUnder(job, r.src);
    PutKeeps(job, s.fs, s.visited, r.src, Reg([]));
    assert s.visited + {r.src} == s.visited;
  }

  /** The destination can be opened: its directory is there, and no directory is in its place. */
  lemma CanOpen(job: Job, s: State, r: Request)
    requires ValidJob(job) && WalkInv(job, s) && FsInv(job, s.fs, s.visited)
    requires Issued(job, s.visited, r)
    ensures ParentExists(s.fs, r.dst)
    ensures r.dst in s.fs ==> s.fs[r.dst].Reg?
  {
    assert ParentHandled(job, s.visited, r.src);
    DstParentExists(job, s, r.src);
    DstOfIsUnder(job, r.src);
    if r.dst in s.fs { assert DstOk(job, s.fs, s.visited, r.dst); }
  }

  lemma SubmitWriteOneCounts(job: Job, s: State)
    requires CountInv(job, s) && s.writeList != [] && !SubmitWriteOne(s).crashed
    ensures CountInv(job, SubmitWriteOne(s))
  {
    hide Names, Writes, Added, Requests;
    var r := s.writeList[0];
    var s' := SubmitWriteOne(s);
    var r' := r.(state := 2);
    NamesHead(s.writeList);
    NamesPush(r', s.inflight);
    assert Pool(s') == Pool(s);
  }

  lemma SubmitWriteOneReqs(job: Job, s: State)
    requires ReqInv(job, s) && s.writeList != [] && !SubmitWriteOne(s).crashed
    requires Grows(job, s.fs, SubmitWriteOne(s).fs)
    ensures ReqInv(job, SubmitWriteOne(s))
  {
    var s' := SubmitWriteOne(s);
    var mid := s.(fs := s'.fs);
    ReqInvGrows(job, s, mid);
    assert Filled(job, s.visited, s.writeList[0]);
  }

  lemma SubmitWriteOneKeeps(job: Job, s: State)
    requires ValidJob(job) && Inv(job, s) && s.writeList != [] && !s.crashed
    ensures !SubmitWriteOne(s).crashed
    ensures Inv(job, SubmitWriteOne(s)) && SubmitWriteOne(s).apc == s.apc && SubmitWriteOne(s).flush == s.flush
    ensures SubmitWriteOne(s).writeLen == s.writeLen - 1
  {
    var r := s.writeList[0];
    assert Filled(job, s.visited, r);
    CanOpen(job, s, r);
    if r.dst !in s.fs { OpenKeeps(job, s, r); }
    SubmitWriteOneReqs(job, s);
    SubmitWriteOneCounts(job, s);
  }

  lemma {:induction false} SubmitWritesKeeps(job: Job, s: State, n: nat)
    requires ValidJob(job) && Inv(job, s) && !s.crashed && n <= s.writeLen
    ensures !SubmitWrites(s, n).crashed && Inv(job, SubmitWrites(s, n)) && SubmitWrites(s, n).apc == s.apc
    ensures SubmitWrites(s, n).writeLen == s.writeLen - n && SubmitWrites(s, n).flush == s.flush
    decreases n
  {
    hide Inv, ValidJob, SubmitWriteOne;
    if n != 0 {
      WriteHead(job, s);
      SubmitWriteOneKeeps(job, s);
      SubmitWritesKeeps(job, SubmitWriteOne(s), n - 1);
    }
  }

  /** The end of each section that has a list to work on, where it leaves the list as it must. */
  lemma SectionEnds(job: Job, s: State)
    requires Inv(job, s)
    ensures s.apc == Draining ==> Inv(job, s.(apc := Testing))
    ensures s.apc == Reading && (s.flush ==> s.readLen == 0) ==> Inv(job, s.(apc := Writing))
    ensures s.apc == Writing && (s.flush ==> s.writeLen == 0) ==> Inv(job, s.(apc := Unlocking))
  {
    hide WalkInv, FsInv, ReqInv;
    if s.apc == Draining { PcOnly(job, s, Testing); }
    if s.apc == Reading && (s.flush ==> s.readLen == 0) { PcOnly(job, s, Writing); }
    if s.apc == Writing && (s.flush ==> s.writeLen == 0) { PcOnly(job, s, Unlocking); }
  }

  /** The exit test, with the flag up and the counters equal, and the locks. */
  lemma TurningPoints(job: Job, s: State)
    requires Inv(job, s)
    ensures s.apc == Locking ==> Inv(job, s.(apc := Draining))
    ensures s.apc == Unlocking ==> Inv(job, s.(apc := Locking))
    ensures s.apc == Testing ==>
              Inv(job, s.(apc := if s.flush && s.reqCount == s.finishedCount then Exited else Reading))
  {
    hide WalkInv, FsInv, ReqInv, CountInv;
    if s.apc == Locking { PcOnly(job, s, Draining); }
    if s.apc == Unlocking { PcOnly(job, s, Locking); }
    if s.apc == Testing { PcOnly(job, s, if s.flush && s.reqCount == s.finishedCount then Exited else Reading); }
  }

  lemma LensAreSizes(job: Job, s: State)
    requires Inv(job, s)
    ensures s.readLen >= 0 && s.writeLen >= 0
  {
  }

  lemma AioKeeps(job: Job, s: State, n: nat)
    requires ValidJob(job) && Inv(job, s) && !s.crashed && AioEnabled(s, n)
    ensures !AioStep(job, s, n).crashed ==> Inv(job, AioStep(job, s, n))
    ensures (forall k :: IsReg(job, k) ==> Sizeable(job, k)) ==> !AioStep(job, s, n).crashed
  {
    hide Inv, Drain, SubmitReads, SubmitWrites, ValidJob;
    LensAreSizes(job, s);
    TurningPoints(job, s);
    match s.apc
    case Draining =>
      DrainKeeps(job, s, n);
      SectionEnds(job, Drain(s, n));
    case Reading =>
      var m := AtLeast0(BatchSize(s.flush, s.readLen, job.readBatch));
      SubmitReadsKeeps(job, s, m);
      if !SubmitReads(s, m).crashed { SectionEnds(job, SubmitReads(s, m)); }
    case Writing =>
      var m := AtLeast0(BatchSize(s.flush, s.writeLen, job.writeBatch));
      SubmitWritesKeeps(job, s, m);
      SectionEnds(job, SubmitWrites(s, m));
    case _ =>
  }

  lemma PcOnly(job: Job, s: State, pc: AioPc)
    requires Inv(job, s)
    requires s.apc != Exited
    requires pc == Exited ==> s.flush && s.reqCount == s.finishedCount
    requires PhaseInv(s.(apc := pc))
    ensures Inv(job, s.(apc := pc))
  {
    hide WalkInv, FsInv, ReqInv, CountInv;
    assert s.wpc != Returned;
    ApcAlone(job, s, pc);
  }

  /** Only the flush phase depends on where the AIO thread is. */
  lemma ApcAlone(job: Job, s: State, pc: AioPc)
    ensures WalkInv(job, s.(apc := pc)) <==> WalkInv(job, s)
    ensures ReqInv(job, s.(apc := pc)) <==> ReqInv(job, s)
    ensures CountInv(job, s.(apc := pc)) <==> CountInv(job, s)
  {
    hide Added, Names, Writes, Requests, NodeOk, DistinctNodes, Issued, InflightOk, CompletedOk, Filled, FinishedOk;
    hide Known, ParentHandled, InSource;
  }

  // ----- the kernel -----

  lemma FinishReadOk(job: Job, s: State, r: Request)
    requires ValidJob(job) && FsInv(job, s.fs, s.visited) && InflightOk(job, s.fs, s.visited, r) && r.state == 1
    ensures Finish(s.fs, r).0 == s.fs
    ensures CompletedOk(job, s.fs, s.visited, Finish(s.fs, r).1)
    ensures Finish(s.fs, r).1.req.src == r.src && Finish(s.fs, r).1.req.state == 1
  {
    assert s.fs[r.src] == job.fs[r.src];
  }

  lemma ContentSize(job: Job, k: string)
    requires Sizeable(job, k)
    ensures |Content(job, k)| == Size(job, k)
  {
  }

  lemma WriteKeeps(job: Job, s: State, r: Request)
    requires ValidJob(job) && FsInv(job, s.fs, s.visited) && Issued(job, s.visited, r)
    ensures FsInv(job, s.fs[r.dst := Reg(Content(job, r.src))], s.visited)
    ensures Grows(job, s.fs, s.fs[r.dst := Reg(Content(job, r.src))])
  {
    hide FsInv, Content;
    DstOfIsUnder(job, r.src);
    PutKeeps(job, s.fs, s.visited, r.src, Reg(Content(job, r.src)));
    assert s.visited + {r.src} == s.visited;
  }

  /** A write replaces whatever part of the content was there with the content. */
  lemma FinishWrite(job: Job, s: State, r: Request)
    requires ValidJob(job) && FsInv(job, s.fs, s.visited) && InflightOk(job, s.fs, s.visited, r) && r.state == 2
    ensures Finish(s.fs, r) == (s.fs[r.dst := Reg(Content(job, r.src))], Event(r, r.fsize))
  {
    hide Content;
    DstOfIsUnder(job, r.src);
    assert DstOk(job, s.fs, s.visited, r.dst);
    ContentSize(job, r.src);
    var was := s.fs[r.dst].data;
    var c := Content(job, r.src);
    assert c[..r.fsize] + was[Min(r.fsize, |was|)..] == c;
  }

  lemma FinishWriteOk(job: Job, s: State, r: Request)
    requires ValidJob(job) && FsInv(job, s.fs, s.visited) && InflightOk(job, s.fs, s.visited, r) && r.state == 2
    ensures FsInv(job, Finish(s.fs, r).0, s.visited)
    ensures Grows(job, s.fs, Finish(s.fs, r).0)
    ensures CompletedOk(job, Finish(s.fs, r).0, s.visited, Finish(s.fs, r).1)
    ensures Finish(s.fs, r).1.req == r
  {
    hide Content, FsInv, Finish;
    FinishWrite(job, s, r);
    WriteKeeps(job, s, r);
  }

  lemma KernelCounts(job: Job, s: State, i: nat)
    requires CountInv(job, s) && i < |s.inflight|
    requires Finish(s.fs, s.inflight[i]).1.req.src == s.inflight[i].src
    requires Finish(s.fs, s.inflight[i]).1.req.state == s.inflight[i].state
    ensures CountInv(job, KernelStep(s, i))
  {
    hide Names, Writes, Added, Requests;
    var e := Finish(s.fs, s.inflight[i]).1;
    NamesRemove(s.inflight, i);
    RequestsParts(s.completed, e);
    NamesPush(e.req, Requests(s.completed));
    assert Pool(KernelStep(s, i)) == Pool(s);
  }

  lemma KernelReqs(job: Job, s: State, i: nat)
    requires ReqInv(job, s) && i < |s.inflight|
    requires Grows(job, s.fs, KernelStep(s, i).fs)
    requires CompletedOk(job, KernelStep(s, i).fs, s.visited, Finish(s.fs, s.inflight[i]).1)
    ensures ReqInv(job, KernelStep(s, i))
  {
    var s' := KernelStep(s, i);
    ReqInvGrows(job, s, s.(fs := s'.fs));
    forall r | r in s'.inflight ensures r in s.inflight {
    }
  }

  lemma KernelKeeps(job: Job, s: State, i: nat)
    requires ValidJob(job) && Inv(job, s) && i < |s.inflight|
    ensures Inv(job, KernelStep(s, i))
    ensures KernelStep(s, i).crashed == s.crashed
  {
    var r := s.inflight[i];
    assert InflightOk(job, s.fs, s.visited, r);
    if r.state == 1 { FinishReadOk(job, s, r); } else { FinishWriteOk(job, s, r); }
    KernelReqs(job, s, i);
    KernelCounts(job, s, i);
  }

  // ----- sizes and batches -----

  /** A size fails exactly if its last 32 bits, taken as a number without sign, are half the range or
      more. */
  lemma SizeableExact(job: Job, k: string)
    requires IsReg(job, k)
    ensures Sizeable(job, k) <==> |job.fs[k].data| % 0x1_0000_0000 < 0x8000_0000
    ensures Sizeable(job, k) ==> |Content(job, k)| == |job.fs[k].data| % 0x1_0000_0000
  {
  }

  /** Requests as they are in flight: for reading, with their size; for writing. */
  function InRead(fs: Fs, r: Request): Request {
    if r.src in fs && fs[r.src].Reg? then r.(fsize := Int32(|fs[r.src].data|), state := 1) else r
  }

  function ReadsOf(fs: Fs, rs: seq<Request>): seq<Request> {
    if rs == [] then [] else [InRead(fs, rs[0])] + ReadsOf(fs, rs[1..])
  }

  function WritesOf(rs: seq<Request>): seq<Request> {
    if rs == [] then [] else [rs[0].(state := 2)] + WritesOf(rs[1..])
  }

  lemma OneRead(s: State)
    requires s.readList != [] && !SubmitReadOne(s).crashed
    ensures var t := SubmitReadOne(s);
            && t.readList == s.readList[1..] && t.fs == s.fs
            && t.inflight == s.inflight + [InRead(s.fs, s.readList[0])]
  {
  }

  lemma OneWrite(s: State)
    requires s.writeList != [] && !SubmitWriteOne(s).crashed
    ensures var t := SubmitWriteOne(s);
            t.writeList == s.writeList[1..] && t.inflight == s.inflight + [s.writeList[0].(state := 2)]
  {
  }

  /** A batch is taken from the head of the list and submitted in the order of the list. */
  lemma {:induction false} ReadsSubmitted(s: State, n: nat)
    requires n <= |s.readList| && !s.crashed && !SubmitReads(s, n).crashed
    ensures SubmitReads(s, n).readList == s.readList[n..]
    ensures SubmitReads(s, n).inflight == s.inflight + ReadsOf(s.fs, s.readList[..n])
    decreases n
  {
    hide SubmitReadOne, InRead;
    if n == 0 {
      assert s.readList[..0] == [] && s.inflight + [] == s.inflight;
    } else {
      StillGoing(s, n);
      OneRead(s);
      var t, batch := SubmitReadOne(s), s.readList[..n];
      ReadsSubmitted(t, n - 1);
      assert batch[1..] == t.readList[..n - 1] && t.readList[n - 1..] == s.readList[n..];
      assert s.inflight + ([InRead(s.fs, batch[0])] + ReadsOf(s.fs, batch[1..])) ==
             (s.inflight + [InRead(s.fs, batch[0])]) + ReadsOf(s.fs, batch[1..]);
    }
  }

  lemma StillGoing(s: State, n: nat)
    requires n > 0 && !s.crashed
    ensures !SubmitReads(s, n).crashed ==> !SubmitReadOne(s).crashed
    ensures !SubmitWrites(s, n).crashed ==> !SubmitWriteOne(s).crashed
  {
    var t, u := SubmitReadOne(s), SubmitWriteOne(s);
    assert t.crashed ==> SubmitReads(t, n - 1) == t;
    assert u.crashed ==> SubmitWrites(u, n - 1) == u;
  }

  lemma {:induction false} WritesSubmitted(s: State, n: nat)
    requires n <= |s.writeList| && !s.crashed && !SubmitWrites(s, n).crashed
    ensures SubmitWrites(s, n).writeList == s.writeList[n..]
    ensures SubmitWrites(s, n).inflight == s.inflight + WritesOf(s.writeList[..n])
    decreases n
  {
    hide SubmitWriteOne;
    if n == 0 {
      assert s.writeList[..0] == [] && s.inflight + [] == s.inflight;
    } else {
      StillGoing(s, n);
      OneWrite(s);
      var t, batch := SubmitWriteOne(s), s.writeList[..n];
      WritesSubmitted(t, n - 1);
      assert batch[1..] == t.writeList[..n - 1] && t.writeList[n - 1..] == s.writeList[n..];
      assert s.inflight + ([batch[0].(state := 2)] + WritesOf(batch[1..])) ==
             (s.inflight + [batch[0].(state := 2)]) + WritesOf(batch[1..]);
    }
  }

  /** A section takes one whole batch if there is one, nothing if not, and everything after the
      flush. */
  lemma BatchTaken(job: Job, s: State, n: nat)
    requires ValidJob(job) && Inv(job, s) && !s.crashed && AioEnabled(s, n) && !AioStep(job, s, n).crashed
    ensures s.apc == Reading ==>
              var len, left := |s.readList|, |AioStep(job, s, n).readList|;
              if s.flush then left == 0
              else if 0 < job.readBatch <= len then left == len - job.readBatch
              else left == len
    ensures s.apc == Writing ==>
              var len, left := |s.writeList|, |AioStep(job, s, n).writeList|;
              if s.flush then left == 0
              else if 0 < job.writeBatch <= len then left == len - job.writeBatch
              else left == len
  {
    hide ValidJob, Inv, SubmitReads, SubmitWrites;
    LensAreSizes(job, s);
    ReadHead(job, s);
    WriteHead(job, s);
    if s.apc == Reading {
      var m := AtLeast0(BatchSize(s.flush, s.readLen, job.readBatch));
      SubmitReadsKeeps(job, s, m);
      ReadHead(job, SubmitReads(s, m));
    } else if s.apc == Writing {
      var m := AtLeast0(BatchSize(s.flush, s.writeLen, job.writeBatch));
      SubmitWritesKeeps(job, s, m);
      WriteHead(job, SubmitWrites(s, m));
    }
  }
}
