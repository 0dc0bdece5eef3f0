/** Detecting directory cycles in a walk: lazily, by remembering one directory, or tightly, by a
    table of all active ones. */
module CycleCheck {

  datatype Id = Id(dev: int, ino: int)

  /** The values of `uintmax_t`. */
  const WIDTH: nat := 0x1_0000_0000_0000_0000

  // ----- powers of two -----

  /** Bitwise and. */
  function BitAnd(a: nat, b: nat): nat {
    if a == 0 || b == 0 then 0 else 2 * BitAnd(a / 2, b / 2) + a % 2 * (b % 2)
  }

  predicate IsZeroOrPowerOfTwo(i: nat) {
    BitAnd(i, (i + WIDTH - 1) % WIDTH) == 0
  }

  predicate PowerOfTwo(n: nat) {
    n == 1 || (n > 1 && n % 2 == 0 && PowerOfTwo(n / 2))
  }

  /** The largest power of two that is at most `n`. */
  function LowerPower(n: nat): (p: nat)
    requires n > 0
    ensures PowerOfTwo(p) && p <= n < 2 * p
    ensures PowerOfTwo(n) ==> p == n
  {
    if n == 1 then 1 else 2 * LowerPower(n / 2)
  }

  lemma PowerGap(p: nat, q: nat)
    requires PowerOfTwo(p) && PowerOfTwo(q) && p < q
    ensures 2 * p <= q
  {
    if p > 1 { PowerGap(p / 2, q / 2); }
  }

  /** The smallest power of two that is at least `n`. */
  lemma UpperPower(n: nat) returns (p: nat)
    requires n > 0
    ensures PowerOfTwo(p) && n <= p <= 2 * n - 1
  {
    hide PowerOfTwo, LowerPower;
    p := LowerPower(n);
    if p < n {
      Twice(p);
      p := 2 * p;
    }
  }

  lemma Twice(p: nat)
    requires PowerOfTwo(p)
    ensures PowerOfTwo(2 * p)
  {
    assert 2 * p / 2 == p;
  }

  lemma {:induction false} AndPredecessor(i: nat)
    requires i > 0
    ensures BitAnd(i, i - 1) == 0 <==> PowerOfTwo(i)
  {
    if i == 1 {
    } else if i % 2 == 0 {
      assert (i - 1) / 2 == i / 2 - 1;
      AndPredecessor(i / 2);
    } else {
      assert (i - 1) / 2 == i / 2 && i / 2 > 0;
      AndSelf(i / 2);
    }
  }

  lemma AndSelf(n: nat)
    requires n > 0
    ensures BitAnd(n, n) > 0
  {
    if n > 1 { AndSelf(n / 2); }
  }

  /** The bit trick tells exactly zero and the powers of two. */
  lemma BitTrick(i: nat)
    requires i < WIDTH
    ensures IsZeroOrPowerOfTwo(i) <==> i == 0 || PowerOfTwo(i)
  {
    if i > 0 {
      assert (i + WIDTH - 1) % WIDTH == i - 1 by {
        assert i + WIDTH - 1 == WIDTH + (i - 1);
      }
      AndPredecessor(i);
    }
  }

  // ----- the lazy check -----

  datatype Lazy = Lazy(counter: nat, id: Id)

  datatype Answer = Answer(cycle: bool, state: Lazy)

  function Check(s: Lazy, d: Id): Answer {
    if s.counter != 0 && d == s.id then Answer(true, s)
    else
      var c := (s.counter + 1) % WIDTH;
      if !IsZeroOrPowerOfTwo(c) then Answer(false, Lazy(c, s.id))
      else if c == 0 then Answer(true, Lazy(c, s.id))
      else Answer(false, Lazy(c, d))
  }

  lemma CheckCases(s: Lazy, d: Id)
    requires s.counter < WIDTH
    ensures Check(s, d) ==
            if s.counter != 0 && d == s.id then Answer(true, s)
            else if s.counter + 1 == WIDTH then Answer(true, Lazy(0, s.id))
            else Answer(false, Lazy(s.counter + 1, if PowerOfTwo(s.counter + 1) then d else s.id))
  {
    hide IsZeroOrPowerOfTwo, PowerOfTwo;
    var c := (s.counter + 1) % WIDTH;
    if s.counter + 1 < WIDTH { assert c == s.counter + 1; } else { assert c == 0; }
    BitTrick(c);
  }

  /** The first `j` calls of a descent through the directories `d(1)`, `d(2)`, ...; it ends when a
      cycle is reported. */
  function Descend(s: Lazy, d: nat -> Id, j: nat): Answer {
    if j == 0 then Answer(false, s)
    else
      var before := Descend(s, d, j - 1);
      if before.cycle then before else Check(before.state, d(j))
  }

  lemma {:induction false} ReportStays(s: Lazy, d: nat -> Id, i: nat, j: nat)
    requires i <= j && Descend(s, d, i).cycle
    ensures Descend(s, d, j).cycle
    decreases j
  {
    if i < j { ReportStays(s, d, i, j - 1); }
  }

  /** While nothing is reported, the counter counts the calls. */
  lemma {:induction false} Counts(s: Lazy, d: nat -> Id, j: nat)
    requires s.counter < WIDTH && !Descend(s, d, j).cycle
    ensures s.counter + j < WIDTH && Descend(s, d, j).state.counter == s.counter + j
    decreases j
  {
    if j > 0 {
      Counts(s, d, j - 1);
      CheckCases(Descend(s, d, j - 1).state, d(j));
    }
  }

  /** From the call that makes the counter the power of two `p` until the counter is twice that,
      the directory of that call is the one remembered. */
  lemma {:induction false} Remembers(s: Lazy, d: nat -> Id, p: nat, j: nat)
    requires s.counter < p && PowerOfTwo(p) && p <= s.counter + j < 2 * p
    requires !Descend(s, d, j).cycle && s.counter < WIDTH
    ensures Descend(s, d, j).state.id == d(p - s.counter)
    decreases j
  {
    hide PowerOfTwo;
    Counts(s, d, j);
    Counts(s, d, j - 1);
    CheckCases(Descend(s, d, j - 1).state, d(j));
    if s.counter + j > p {
      Remembers(s, d, p, j - 1);
      if PowerOfTwo(s.counter + j) { PowerGap(p, s.counter + j); }
    }
  }

  /** The call that meets the remembered directory again reports a cycle, if none did before. */
  lemma SeenAgain(s: Lazy, d: nat -> Id, p: nat, last: nat)
    requires s.counter < p && PowerOfTwo(p) && p < s.counter + last <= 2 * p && s.counter < WIDTH
    requires d(last) == d(p - s.counter)
    ensures Descend(s, d, last).cycle
  {
    hide PowerOfTwo, Check;
    var before: nat := last - 1;
    if Descend(s, d, before).cycle {
      ReportStays(s, d, before, last);
    } else {
      Remembers(s, d, p, before);
      Counts(s, d, before);
      CheckCases(Descend(s, d, before).state, d(last));
    }
  }

  function Max(a: nat, b: nat): nat {
    if a < b then b else a
  }

  /** A descent that goes round in a cycle of `period` directories from call `start` on is reported
      in the end, from any state of the counter, and this soon. */
  lemma CycleFound(s: Lazy, d: nat -> Id, start: nat, period: nat)
    requires s.counter < WIDTH && start > 0 && period > 0
    requires forall j :: start <= j ==> d(j + period) == d(j)
    ensures Descend(s, d, 2 * Max(s.counter + start, period) - 1 - s.counter + period).cycle
  {
    var y := Max(s.counter + start, period);
    var p := UpperPower(y);
    var last := p - s.counter + period;
    assert d((p - s.counter) + period) == d(p - s.counter);
    SeenAgain(s, d, p, last);
    ReportStays(s, d, last, 2 * y - 1 - s.counter + period);
  }

  /** From a fresh state it takes fewer than three times the larger of the two numbers. */
  lemma CycleFoundFromStart(id: Id, d: nat -> Id, start: nat, period: nat)
    requires start > 0 && period > 0
    requires forall j :: start <= j ==> d(j + period) == d(j)
    ensures exists j :: 0 < j < 3 * Max(start, period) && Descend(Lazy(0, id), d, j).cycle
  {
    var x := Max(start, period);
    CycleFound(Lazy(0, id), d, start, period);
    ReportStays(Lazy(0, id), d, 2 * x - 1 + period, 3 * x - 1);
  }

  // ----- whole walks -----

  /** A walk below one root: the active directories from the root down, and the lazy state. */
  datatype Walk = Walk(path: seq<Id>, state: Lazy)

  datatype Step = Enter(d: Id) | Leave

  function ReflectUp(s: Lazy, dir: Id, subdir: Id): Lazy {
    if s.id == subdir then s.(id := dir) else s
  }

  function LazyEnter(w: Walk, d: Id): Walk {
    var a := Check(w.state, d);
    Walk(if a.cycle then w.path else w.path + [d], a.state)
  }

  /** Nothing is reflected into the parent of the root. */
  function LazyLeave(w: Walk): Walk
    requires w.path != []
  {
    var n := |w.path| - 1;
    Walk(w.path[..n], if n > 0 then ReflectUp(w.state, w.path[n - 1], w.path[n]) else w.state)
  }

  function LazyStep(w: Walk, a: Step): Walk
    requires a.Leave? ==> w.path != []
  {
    match a
    case Enter(d) => LazyEnter(w, d)
    case Leave => LazyLeave(w)
  }

  /** A walk that starts with the root and is over when the root is left. */
  ghost predicate Walks(w: Walk, steps: seq<Step>)
    decreases |steps|
  {
    steps == [] ||
    (w.path != [] && Walks(LazyStep(w, steps[0]), steps[1..]))
  }

  ghost function AfterSteps(w: Walk, steps: seq<Step>): Walk
    requires Walks(w, steps)
    decreases |steps|
  {
    if steps == [] then w else AfterSteps(LazyStep(w, steps[0]), steps[1..])
  }

  /** The counter has not come round to zero. */
  predicate Unwrapped(w: Walk) {
    w.path != [] ==> 0 < w.state.counter < WIDTH
  }

  ghost predicate OnPath(w: Walk) {
    w.path != [] ==> w.state.id in w.path
  }

  lemma StepOnPath(w: Walk, a: Step)
    requires w.path != [] && OnPath(w) && Unwrapped(w)
    requires Unwrapped(LazyStep(w, a))
    ensures OnPath(LazyStep(w, a))
  {
    match a
    case Enter(d) => CheckCases(w.state, d);
    case Leave =>
      var n := |w.path| - 1;
      if n > 0 {
        assert w.path == w.path[..n] + [w.path[n]];
        assert w.path[n - 1] == w.path[..n][n - 1];
      }
  }

  /** No state of the walk has a wrapped counter. */
  ghost predicate NeverWraps(w: Walk, steps: seq<Step>)
    requires Walks(w, steps)
    decreases |steps|
  {
    Unwrapped(w) && (steps == [] || NeverWraps(LazyStep(w, steps[0]), steps[1..]))
  }

  lemma {:induction false} WalkOnPath(w: Walk, steps: seq<Step>)
    requires Walks(w, steps) && OnPath(w) && NeverWraps(w, steps)
    ensures OnPath(AfterSteps(w, steps)) && Unwrapped(AfterSteps(w, steps))
    decreases |steps|
  {
    hide OnPath, LazyStep, Unwrapped;
    if steps != [] {
      FirstUnwrapped(LazyStep(w, steps[0]), steps[1..]);
      StepOnPath(w, steps[0]);
      WalkOnPath(LazyStep(w, steps[0]), steps[1..]);
    }
  }

  lemma FirstUnwrapped(w: Walk, steps: seq<Step>)
    requires Walks(w, steps) && NeverWraps(w, steps)
    ensures Unwrapped(w)
  {
  }

  /** The walk after its root has been entered from a fresh state. */
  function AtRoot(root: Id, id: Id): Walk {
    LazyEnter(Walk([], Lazy(0, id)), root)
  }

  lemma RootEntered(root: Id, id: Id)
    ensures AtRoot(root, id) == Walk([root], Lazy(1, root))
  {
    CheckCases(Lazy(0, id), root);
    assert [] + [root] == [root];
  }

  /** Soundness: at any point of any walk, a directory reported as a cycle is an active one, short
      of the counter's coming round; so the table would report it too. */
  lemma ReportIsCycle(root: Id, id: Id, steps: seq<Step>, d: Id)
    requires Walks(AtRoot(root, id), steps) && NeverWraps(AtRoot(root, id), steps)
    ensures var w := AfterSteps(AtRoot(root, id), steps);
            w.path != [] && w.state.counter + 1 < WIDTH && Check(w.state, d).cycle ==> d in w.path
  {
    RootEntered(root, id);
    WalkOnPath(AtRoot(root, id), steps);
    var w := AfterSteps(AtRoot(root, id), steps);
    if w.path != [] { CheckCases(w.state, d); }
  }

  /** The counter grows by at most one a step, so it cannot come round in a shorter walk. */
  lemma {:induction false} ShortWalkNeverWraps(w: Walk, steps: seq<Step>)
    requires Walks(w, steps) && w.path != []
    requires 0 < w.state.counter && w.state.counter + |steps| < WIDTH
    ensures NeverWraps(w, steps)
    ensures AfterSteps(w, steps).state.counter <= w.state.counter + |steps|
    decreases |steps|
  {
    if steps != [] {
      var w' := LazyStep(w, steps[0]);
      if steps[0].Enter? { CheckCases(w.state, steps[0].d); }
      if w'.path == [] {
        assert |steps| == 1;
      } else {
        ShortWalkNeverWraps(w', steps[1..]);
      }
    }
  }

  /** Every directory entered is different from all that are active at the time. */
  ghost predicate EntersFresh(w: Walk, steps: seq<Step>)
    requires Walks(w, steps)
    decreases |steps|
  {
    steps == [] ||
    ((steps[0].Enter? ==> steps[0].d !in w.path) && EntersFresh(LazyStep(w, steps[0]), steps[1..]))
  }

  /** No directory entered is reported. */
  ghost predicate Silent(w: Walk, steps: seq<Step>)
    requires Walks(w, steps)
    decreases |steps|
  {
    steps == [] ||
    ((steps[0].Enter? ==> !Check(w.state, steps[0].d).cycle) && Silent(LazyStep(w, steps[0]), steps[1..]))
  }

  /** A walk that never enters an active directory again sees no report, however far it goes up
      and down, short of the counter's coming round. */
  lemma {:induction false} NoFalseAlarm(w: Walk, steps: seq<Step>)
    requires Walks(w, steps) && w.path != [] && OnPath(w) && EntersFresh(w, steps)
    requires 0 < w.state.counter && w.state.counter + |steps| < WIDTH
    ensures Silent(w, steps)
    decreases |steps|
  {
    if steps != [] {
      var w' := LazyStep(w, steps[0]);
      if steps[0].Enter? { CheckCases(w.state, steps[0].d); }
      StepOnPath(w, steps[0]);
      if w'.path == [] {
        assert |steps| == 1;
      } else {
        NoFalseAlarm(w', steps[1..]);
      }
    }
  }

  // ----- the two detectors of a tree walk -----

  predicate Distinct(path: seq<Id>) {
    forall i, j :: 0 <= i < j < |path| ==> path[i] != path[j]
  }

  class Detector {
    const tight: bool
    /** For the tight check: the active directories, with the place of each in the path. */
    var table: map<Id, nat>
    var chdirCounter: nat
    var devIno: Id
    ghost var path: seq<Id>

    ghost function Snapshot(): Walk
      reads this
    {
      Walk(path, Lazy(chdirCounter, devIno))
    }

    /** The table holds exactly the active directories. */
    ghost predicate Valid()
      reads this
    {
      && chdirCounter < WIDTH
      && (tight ==>
            && Distinct(path)
            && (forall i :: 0 <= i < |path| ==> path[i] in table && table[path[i]] == i)
            && (forall d :: d in table ==> d in path))
    }

    constructor (tight: bool, garbage: Id)
      ensures Valid() && this.tight == tight && Snapshot() == Walk([], Lazy(0, garbage))
    {
      this.tight := tight;
      table, chdirCounter, devIno, path := map[], 0, garbage, [];
    }

    /** `cycle_check`. */
    method CycleCheck(sb: Id) returns (cycle: bool)
      requires chdirCounter < WIDTH
      modifies this`chdirCounter, this`devIno
      ensures Answer(cycle, Lazy(chdirCounter, devIno)) == Check(old(Lazy(chdirCounter, devIno)), sb)
      ensures chdirCounter < WIDTH
    {
      if chdirCounter != 0 && sb == devIno {
        return true;
      }
      chdirCounter := (chdirCounter + 1) % WIDTH;
      if IsZeroOrPowerOfTwo(chdirCounter) {
        if chdirCounter == 0 {
          return true;
        }
        devIno := sb;
      }
      cycle := false;
    }

    /** `enter_dir` for an entry at depth `level`.  With the table the answer is exact, and
        `ancestor` is the depth at which the same directory is active. */
    method EnterDir(d: Id, level: nat) returns (cycle: bool, ancestor: nat)
      requires Valid() && level == |path|
      modifies this
      ensures Valid()
      ensures tight ==> cycle == (d in old(path)) && (cycle ==> ancestor < |path| && path[ancestor] == d)
      ensures !tight ==> cycle == Check(old(Snapshot()).state, d).cycle && Snapshot() == LazyEnter(old(Snapshot()), d)
      ensures path == if cycle then old(path) else old(path) + [d]
    {
      ancestor := 0;
      if tight {
        cycle := d in table;
        if cycle {
          ancestor := table[d];
        } else {
          table := table[d := level];
        }
      } else {
        cycle := CycleCheck(d);
      }
      if !cycle {
        path := path + [d];
      }
    }

    /** `leave_dir` for the entry at depth `level`, whose parent is `parent` unless it is a root. */
    method LeaveDir(d: Id, parent: Id, level: nat)
      requires Valid() && level + 1 == |path| && d == path[level]
      requires level > 0 ==> parent == path[level - 1]
      requires !tight && level > 0 ==> chdirCounter != 0
      modifies this
      ensures Valid()
      ensures path == old(path)[..level]
      ensures !tight ==> Snapshot() == LazyLeave(old(Snapshot()))
    {
      if tight {
        assert d in table;
        table := table - {d};
      } else if level > 0 {
        if devIno == d {
          devIno := parent;
        }
      }
      path := path[..level];
    }
  }
}
