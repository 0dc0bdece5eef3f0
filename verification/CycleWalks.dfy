/** Lazy cycle detection in a walk that goes up as well as down: a remembered directory stays
    remembered over finished side trips, so a descent into a cycle is reported in spite of them. */
module CycleWalks {
  import opened CycleCheck

  /** A walk in which nothing is reported. */
  ghost predicate Quiet(w: Walk, steps: seq<Step>) {
    Walks(w, steps) && Silent(w, steps)
  }

  lemma {:induction false} QuietSplit(w: Walk, a: seq<Step>, b: seq<Step>)
    ensures Quiet(w, a + b) <==> Quiet(w, a) && Quiet(AfterSteps(w, a), b)
    ensures Quiet(w, a + b) ==> AfterSteps(w, a + b) == AfterSteps(AfterSteps(w, a), b)
    decreases |a|
  {
    hide LazyStep, Check;
    if a == [] {
      assert a + b == b;
    } else {
      assert (a + b)[0] == a[0] && (a + b)[1..] == a[1..] + b;
      if w.path != [] { QuietSplit(LazyStep(w, a[0]), a[1..], b); }
    }
  }

  // ----- the remembered directory stays -----

  /** Directory `k` of the path is the one remembered, and does not occur again below. */
  ghost predicate RemembersAt(w: Walk, k: nat) {
    && k < |w.path| && w.state.id == w.path[k] && 0 < w.state.counter < WIDTH
    && forall j :: k < j < |w.path| ==> w.path[j] != w.path[k]
  }

  /** The walk does not come back above directory `k`, and no counter is a power of two. */
  ghost predicate Below(w: Walk, steps: seq<Step>, k: nat)
    requires Walks(w, steps)
    decreases |steps|
  {
    |w.path| > k &&
    (steps == [] ||
     ((steps[0].Enter? ==> !PowerOfTwo(w.state.counter + 1)) && Below(LazyStep(w, steps[0]), steps[1..], k)))
  }

  lemma StepRemembers(w: Walk, a: Step, k: nat)
    requires RemembersAt(w, k) && (a.Enter? ==> !Check(w.state, a.d).cycle && !PowerOfTwo(w.state.counter + 1))
    requires a.Leave? ==> |w.path| > k + 1
    ensures RemembersAt(LazyStep(w, a), k) && LazyStep(w, a).path[..k + 1] == w.path[..k + 1]
    ensures LazyStep(w, a).state.counter == w.state.counter + (if a.Enter? then 1 else 0)
    ensures |LazyStep(w, a).path| == |w.path| + (if a.Enter? then 1 else -1)
  {
    hide PowerOfTwo;
    if a.Enter? { CheckCases(w.state, a.d); }
  }

  /** Whatever the walk does below a remembered directory, short of a report, of leaving it and of a
      power of two: the directory is remembered still, and entering it again is reported. */
  lemma {:induction false} StaysRemembered(w: Walk, steps: seq<Step>, k: nat)
    requires RemembersAt(w, k) && Quiet(w, steps) && Below(w, steps, k)
    ensures RemembersAt(AfterSteps(w, steps), k) && AfterSteps(w, steps).path[k] == w.path[k]
    ensures Check(AfterSteps(w, steps).state, w.path[k]).cycle
    decreases |steps|
  {
    hide PowerOfTwo, LazyStep, Check, RemembersAt;
    if steps == [] {
      ReportsRemembered(w, k);
    } else {
      var w' := LazyStep(w, steps[0]);
      assert |w'.path| > k;
      LeaveShortens(w, steps[0]);
      StepRemembers(w, steps[0], k);
      assert w'.path[k] == w'.path[..k + 1][k] == w.path[..k + 1][k] == w.path[k];
      StaysRemembered(w', steps[1..], k);
    }
  }

  lemma LeaveShortens(w: Walk, a: Step)
    requires w.path != []
    ensures a.Leave? ==> |LazyStep(w, a).path| == |w.path| - 1
  {
  }

  lemma ReportsRemembered(w: Walk, k: nat)
    requires RemembersAt(w, k)
    ensures k < |w.path| && Check(w.state, w.path[k]).cycle
  {
  }

  // ----- side trips -----

  /** Steps that come back to where they began, from `depth` directories further down. */
  predicate Trip(t: seq<Step>, depth: nat)
    decreases |t|
  {
    if t == [] then depth == 0
    else if t[0].Enter? then Trip(t[1..], depth + 1)
    else depth > 0 && Trip(t[1..], depth - 1)
  }

  function Enters(t: seq<Step>): nat {
    if t == [] then 0 else (if t[0].Enter? then 1 else 0) + Enters(t[1..])
  }

  /** The remembered directory is directory `k` of the path or one below it. */
  ghost predicate RemembersFrom(w: Walk, k: nat) {
    exists i :: k <= i < |w.path| && w.path[i] == w.state.id
  }

  lemma StepFrom(w: Walk, a: Step, k: nat, p: nat)
    requires |w.path| > k && w.state.counter < WIDTH && PowerOfTwo(p)
    requires a.Enter? ==> !Check(w.state, a.d).cycle
    requires a.Leave? ==> |w.path| > k + 1
    ensures RemembersFrom(w, k) || (a.Enter? && w.state.counter + 1 == p) ==> RemembersFrom(LazyStep(w, a), k)
    ensures LazyStep(w, a).path[..k + 1] == w.path[..k + 1]
    ensures LazyStep(w, a).state.counter == w.state.counter + (if a.Enter? then 1 else 0) < WIDTH
    ensures |LazyStep(w, a).path| == |w.path| + (if a.Enter? then 1 else -1)
  {
    hide PowerOfTwo;
    var w' := LazyStep(w, a);
    if a.Enter? {
      CheckCases(w.state, a.d);
      assert w'.path[|w.path|] == a.d;
      if RemembersFrom(w, k) {
        var i :| k <= i < |w.path| && w.path[i] == w.state.id;
        assert w'.path[i] == w.path[i];
      }
    } else if RemembersFrom(w, k) {
      var i :| k <= i < |w.path| && w.path[i] == w.state.id;
      var n := |w.path| - 1;
      assert w'.path[n - 1] == w.path[n - 1];
      if i < n { assert w'.path[i] == w.path[i]; }
    }
  }

  /** A finished trip during which the counter comes to a power of two, or which began with a
      directory remembered from `k` on, leaves directory `k` remembered. */
  lemma {:induction false} TripSinks(w: Walk, t: seq<Step>, depth: nat, k: nat, p: nat)
    requires |w.path| == k + 1 + depth && w.state.counter < WIDTH && PowerOfTwo(p)
    requires Trip(t, depth) && Quiet(w, t)
    ensures var w' := AfterSteps(w, t);
            && w'.path == w.path[..k + 1] && w'.state.counter == w.state.counter + Enters(t) < WIDTH
            && (RemembersFrom(w, k) || w.state.counter < p <= w.state.counter + Enters(t) ==>
                  w'.state.id == w.path[k])
    decreases |t|
  {
    hide PowerOfTwo, LazyStep, Check;
    if t == [] {
      assert w.path[..k + 1] == w.path;
    } else {
      var w' := LazyStep(w, t[0]);
      StepFrom(w, t[0], k, p);
      assert w'.path[k] == w'.path[..k + 1][k] == w.path[k];
      TripSinks(w', t[1..], if t[0].Enter? then depth + 1 else depth - 1, k, p);
    }
  }

  /** No counter of the trip is a power of two. */
  ghost predicate Between(low: nat, high: nat) {
    forall c :: low < c <= high ==> !PowerOfTwo(c)
  }

  lemma {:induction false} TripKeeps(w: Walk, t: seq<Step>, depth: nat, k: nat)
    requires RemembersAt(w, k) && k + depth < |w.path|
    requires Trip(t, depth) && Quiet(w, t) && Between(w.state.counter, w.state.counter + Enters(t))
    ensures var w' := AfterSteps(w, t);
            RemembersAt(w', k) && |w'.path| == |w.path| - depth && w'.path[k] == w.path[k] &&
            w'.state.counter == w.state.counter + Enters(t)
    decreases |t|
  {
    hide PowerOfTwo, LazyStep, Check;
    if t != [] {
      var w' := LazyStep(w, t[0]);
      StepRemembers(w, t[0], k);
      assert w'.path[k] == w'.path[..k + 1][k] == w.path[..k + 1][k] == w.path[k];
      TripKeeps(w', t[1..], if t[0].Enter? then depth + 1 else depth - 1, k);
    }
  }

  // ----- a descent with side trips -----

  /** After entering each directory `d(j)` of the descent the walk makes a side trip from it. */
  function Round(d: nat -> Id, side: nat -> seq<Step>, j: nat): seq<Step> {
    [Enter(d(j))] + side(j)
  }

  function Rounds(d: nat -> Id, side: nat -> seq<Step>, j: nat): seq<Step> {
    if j == 0 then [] else Rounds(d, side, j - 1) + Round(d, side, j)
  }

  function Total(side: nat -> seq<Step>, j: nat): nat {
    if j == 0 then 0 else Total(side, j - 1) + 1 + Enters(side(j))
  }

  /** All side trips come back, and with the step down none enters more than `size` directories. */
  ghost predicate SideTrips(side: nat -> seq<Step>, size: nat) {
    forall j :: Trip(side(j), 0) && 1 + Enters(side(j)) <= size
  }

  lemma {:induction false} TotalBounds(side: nat -> seq<Step>, size: nat, j: nat)
    requires SideTrips(side, size)
    ensures j <= Total(side, j) <= size * j
    decreases j
  {
    hide Enters, Trip;
    if j > 0 {
      TotalBounds(side, size, j - 1);
      assert Trip(side(j), 0) && 1 + Enters(side(j)) <= size;
      assert size * j == size * (j - 1) + size;
    }
  }

  lemma {:induction false} Shorter(w: Walk, d: nat -> Id, side: nat -> seq<Step>, i: nat, j: nat)
    requires i <= j && Quiet(w, Rounds(d, side, j))
    ensures Quiet(w, Rounds(d, side, i))
    decreases j
  {
    hide Quiet, Round;
    if i < j {
      QuietSplit(w, Rounds(d, side, j - 1), Round(d, side, j));
      Shorter(w, d, side, i, j - 1);
    }
  }

  ghost function AfterRounds(w: Walk, d: nat -> Id, side: nat -> seq<Step>, j: nat): Walk
    requires Quiet(w, Rounds(d, side, j))
  {
    AfterSteps(w, Rounds(d, side, j))
  }

  /** One round more: the state in which its side trip begins. */
  lemma OneRound(w: Walk, d: nat -> Id, side: nat -> seq<Step>, j: nat)
    requires w.path != [] && j > 0 && Quiet(w, Rounds(d, side, j))
    ensures Quiet(w, Rounds(d, side, j - 1))
    ensures var w0 := AfterRounds(w, d, side, j - 1);
            && w0.path != [] && !Check(w0.state, d(j)).cycle
            && Quiet(LazyStep(w0, Enter(d(j))), side(j))
            && AfterRounds(w, d, side, j) == AfterSteps(LazyStep(w0, Enter(d(j))), side(j))
  {
    hide LazyStep, Check;
    var a, b := Rounds(d, side, j - 1), Round(d, side, j);
    QuietSplit(w, a, b);
    assert b[0] == Enter(d(j)) && b[1..] == side(j);
  }

  /** Where the descent has got to, and what the counter says. */
  lemma {:induction false} RoundsState(w: Walk, d: nat -> Id, side: nat -> seq<Step>, size: nat, j: nat)
    requires w.path != [] && w.state.counter < WIDTH && SideTrips(side, size) && Quiet(w, Rounds(d, side, j))
    ensures var w' := AfterRounds(w, d, side, j);
            && |w'.path| == |w.path| + j && (j > 0 ==> w'.path[|w.path| + j - 1] == d(j))
            && w'.state.counter == w.state.counter + Total(side, j) < WIDTH
    decreases j
  {
    hide LazyStep, Check, Enters, PowerOfTwo, Quiet;
    if j > 0 {
      OneRound(w, d, side, j);
      RoundsState(w, d, side, size, j - 1);
      var w0 := AfterRounds(w, d, side, j - 1);
      OneIsPower();
      assert Trip(side(j), 0);
      StepFrom(w0, Enter(d(j)), |w0.path| - 1, 1);
      EnterAdds(w0, d(j));
      TripSinks(LazyStep(w0, Enter(d(j))), side(j), 0, |w0.path|, 1);
    } else {
      NoRounds(w, d, side);
    }
  }

  lemma NoRounds(w: Walk, d: nat -> Id, side: nat -> seq<Step>)
    ensures Quiet(w, Rounds(d, side, 0)) && AfterRounds(w, d, side, 0) == w
  {
  }

  lemma OneIsPower()
    ensures PowerOfTwo(1)
  {
  }

  lemma EnterAdds(w: Walk, d: Id)
    ensures !Check(w.state, d).cycle ==> LazyStep(w, Enter(d)).path == w.path + [d]
  {
  }

  /** The round in which the counter comes to the power of two leaves its directory remembered. */
  lemma CheckpointRound(w: Walk, d: nat -> Id, side: nat -> seq<Step>, size: nat, m: nat, p: nat)
    requires w.path != [] && w.state.counter < WIDTH && SideTrips(side, size) && PowerOfTwo(p)
    requires m > 0 && Quiet(w, Rounds(d, side, m))
    requires w.state.counter + Total(side, m - 1) < p <= w.state.counter + Total(side, m)
    ensures RemembersAt(AfterRounds(w, d, side, m), |w.path| + m - 1)
  {
    hide LazyStep, Check, Enters, PowerOfTwo, Quiet;
    OneRound(w, d, side, m);
    RoundsState(w, d, side, size, m - 1);
    RoundsState(w, d, side, size, m);
    var w0 := AfterRounds(w, d, side, m - 1);
    var w1 := LazyStep(w0, Enter(d(m)));
    assert Trip(side(m), 0);
    StepFrom(w0, Enter(d(m)), |w0.path| - 1, p);
    EnterAdds(w0, d(m));
    if w1.state.counter == p { EnterRemembers(w0, d(m)); }
    TripSinks(w1, side(m), 0, |w0.path|, p);
  }

  lemma EnterRemembers(w: Walk, d: Id)
    requires w.state.counter + 1 < WIDTH && !Check(w.state, d).cycle && PowerOfTwo(w.state.counter + 1)
    ensures RemembersFrom(LazyStep(w, Enter(d)), |w.path|)
  {
    hide PowerOfTwo;
    CheckCases(w.state, d);
    assert LazyStep(w, Enter(d)).path[|w.path|] == d;
  }

  /** Rounds without a power of two keep it remembered. */
  lemma {:induction false} RoundsKeep(w: Walk, d: nat -> Id, side: nat -> seq<Step>, size: nat, m: nat, j: nat, k: nat)
    requires w.path != [] && w.state.counter < WIDTH && SideTrips(side, size)
    requires m <= j && Quiet(w, Rounds(d, side, m)) && Quiet(w, Rounds(d, side, j))
    requires RemembersAt(AfterRounds(w, d, side, m), k)
    requires Between(w.state.counter + Total(side, m), w.state.counter + Total(side, j))
    ensures RemembersAt(AfterRounds(w, d, side, j), k)
    ensures AfterRounds(w, d, side, j).path[k] == AfterRounds(w, d, side, m).path[k]
    decreases j
  {
    hide LazyStep, Check, Enters, PowerOfTwo, Quiet, RemembersAt;
    if m < j {
      OneRound(w, d, side, j);
      TotalGrows(side, m, j - 1);
      RoundsKeep(w, d, side, size, m, j - 1, k);
      RoundsState(w, d, side, size, j - 1);
      assert !PowerOfTwo(w.state.counter + Total(side, j - 1) + 1);
      var w0 := AfterRounds(w, d, side, j - 1);
      var w1 := LazyStep(w0, Enter(d(j)));
      StepRemembers(w0, Enter(d(j)), k);
      RememberedIsThere(w0, k);
      RememberedIsThere(w1, k);
      assert w1.path[k] == w1.path[..k + 1][k] == w0.path[..k + 1][k] == w0.path[k];
      assert Trip(side(j), 0);
      TripKeeps(w1, side(j), 0, k);
    }
  }

  lemma RememberedIsThere(w: Walk, k: nat)
    requires RemembersAt(w, k)
    ensures k < |w.path|
  {
  }

  lemma {:induction false} TotalGrows(side: nat -> seq<Step>, i: nat, j: nat)
    requires i <= j
    ensures Total(side, i) <= Total(side, j)
    decreases j
  {
    if i < j { TotalGrows(side, i, j - 1); }
  }

  /** The first round after which the counter has come to `p`. */
  lemma {:induction false} FirstRound(side: nat -> seq<Step>, size: nat, c: nat, p: nat, j: nat) returns (m: nat)
    requires SideTrips(side, size) && c < p <= c + Total(side, j)
    ensures 0 < m <= j && c + Total(side, m - 1) < p <= c + Total(side, m)
    decreases j
  {
    hide SideTrips;
    if c + Total(side, j - 1) < p {
      m := j;
    } else {
      m := FirstRound(side, size, c, p, j - 1);
    }
  }

  lemma AtMost(size: nat, a: nat, b: nat)
    requires size >= 1 && size * a <= size * b
    ensures a <= b
  {
    if b < a { MoreTimes(size, b, a); }
  }

  lemma MoreTimes(size: nat, a: nat, b: nat)
    requires size >= 1 && a < b
    ensures size * a < size * b
  {
    assert size * b == size * a + size * (b - a);
    Product(size, b - a);
  }

  /** The descent comes to the directory remembered before the next power of two. */
  lemma NotQuiet(w: Walk, d: nat -> Id, side: nat -> seq<Step>, size: nat, start: nat, period: nat, p: nat, m: nat)
    requires w.path != [] && 0 < w.state.counter < WIDTH && SideTrips(side, size) && size >= 1
    requires start > 0 && period > 0 && forall j :: start <= j ==> d(j + period) == d(j)
    requires PowerOfTwo(p) && w.state.counter + size * start <= p && size * period <= p
    requires m > 0 && w.state.counter + Total(side, m - 1) < p <= w.state.counter + Total(side, m)
    ensures !Quiet(w, Rounds(d, side, m + period))
  {
    hide Quiet, PowerOfTwo, SideTrips, RemembersAt, LazyStep, Check, Total;
    var n := m + period - 1;
    TotalBounds(side, size, m);
    AtMost(size, start, m);
    assert d(m + period) == d(m);
    if Quiet(w, Rounds(d, side, n + 1)) {
      Shorter(w, d, side, m, n + 1);
      Shorter(w, d, side, n, n + 1);
      CheckpointRound(w, d, side, size, m, p);
      NoPowerUntil(side, size, w.state.counter, period, p, m);
      RoundsKeep(w, d, side, size, m, n, |w.path| + m - 1);
      RoundsState(w, d, side, size, m);
      OneRound(w, d, side, n + 1);
      ReportsRemembered(AfterRounds(w, d, side, n), |w.path| + m - 1);
    }
  }

  lemma {:induction false} TotalRise(side: nat -> seq<Step>, size: nat, i: nat, j: nat)
    requires SideTrips(side, size) && i <= j
    ensures Total(side, j) <= Total(side, i) + size * (j - i)
    decreases j
  {
    hide Enters, Trip;
    if i < j {
      TotalRise(side, size, i, j - 1);
      assert Trip(side(j), 0) && 1 + Enters(side(j)) <= size;
      assert size * (j - i) == size * (j - 1 - i) + size;
    }
  }

  lemma NoPowerUntil(side: nat -> seq<Step>, size: nat, c: nat, period: nat, p: nat, m: nat)
    requires SideTrips(side, size) && period > 0 && PowerOfTwo(p) && size * period <= p
    requires m > 0 && c + Total(side, m - 1) < p <= c + Total(side, m)
    ensures Between(c + Total(side, m), c + Total(side, m + period - 1))
  {
    hide PowerOfTwo, SideTrips, Total;
    TotalRise(side, size, m - 1, m + period - 1);
    forall x | c + Total(side, m) < x <= c + Total(side, m + period - 1) ensures !PowerOfTwo(x) {
      if PowerOfTwo(x) { PowerGap(p, x); }
    }
  }

  // ----- a walk that is not quiet has a report -----

  /** Some directory is reported when it is entered; up to there it is a walk without a report. */
  ghost predicate Reported(w: Walk, steps: seq<Step>)
    decreases |steps|
  {
    w.path != [] && steps != [] &&
    ((steps[0].Enter? && Check(w.state, steps[0].d).cycle) || Reported(LazyStep(w, steps[0]), steps[1..]))
  }

  /** Steps that never go up beyond where they began, from `depth` directories further down. */
  predicate Stays(t: seq<Step>, depth: nat)
    decreases |t|
  {
    t == [] || (if t[0].Enter? then Stays(t[1..], depth + 1) else depth > 0 && Stays(t[1..], depth - 1))
  }

  lemma {:induction false} QuietOrReported(w: Walk, t: seq<Step>, depth: nat)
    requires |w.path| > depth && Stays(t, depth)
    ensures Quiet(w, t) || Reported(w, t)
    decreases |t|
  {
    hide Check;
    if t != [] && !(t[0].Enter? && Check(w.state, t[0].d).cycle) {
      QuietOrReported(LazyStep(w, t[0]), t[1..], if t[0].Enter? then depth + 1 else depth - 1);
    }
  }

  lemma {:induction false} TripStays(t: seq<Step>, k: nat, b: seq<Step>, depth: nat)
    requires Trip(t, k) && Stays(b, depth)
    ensures Stays(t + b, depth + k)
    decreases |t|
  {
    if t == [] {
      assert t + b == b;
    } else {
      assert (t + b)[0] == t[0] && (t + b)[1..] == t[1..] + b;
      TripStays(t[1..], if t[0].Enter? then k + 1 else k - 1, b, depth);
    }
  }

  lemma {:induction false} RoundsStay(d: nat -> Id, side: nat -> seq<Step>, j: nat, b: seq<Step>, depth: nat)
    requires (forall i :: Trip(side(i), 0)) && Stays(b, depth + j)
    ensures Stays(Rounds(d, side, j) + b, depth)
    decreases j
  {
    if j == 0 {
      assert [] + b == b;
    } else {
      var more := Round(d, side, j) + b;
      TripStays(side(j), 0, b, depth + j);
      assert more[0] == Enter(d(j)) && more[1..] == side(j) + b;
      RoundsStay(d, side, j - 1, more, depth);
      assert Rounds(d, side, j - 1) + more == Rounds(d, side, j) + b;
    }
  }

  lemma RoundsReported(w: Walk, d: nat -> Id, side: nat -> seq<Step>, size: nat, j: nat)
    requires w.path != [] && SideTrips(side, size) && !Quiet(w, Rounds(d, side, j))
    ensures Reported(w, Rounds(d, side, j))
  {
    hide Quiet, Reported, Enters;
    RoundsStay(d, side, j, [], 0);
    assert Rounds(d, side, j) + [] == Rounds(d, side, j);
    QuietOrReported(w, Rounds(d, side, j), 0);
  }

  /** A descent that goes round in a cycle of `period` directories from round `start` on, with side
      trips of any shape that enter fewer than `size` directories each, is reported within this many
      rounds, from any state of the counter. */
  lemma WalkCycleFound(w: Walk, d: nat -> Id, side: nat -> seq<Step>, size: nat, start: nat, period: nat)
    requires w.path != [] && 0 < w.state.counter < WIDTH && SideTrips(side, size)
    requires start > 0 && period > 0 && forall j :: start <= j ==> d(j + period) == d(j)
    ensures var c := w.state.counter;
            Reported(w, Rounds(d, side, 2 * Max(c + size * start, size * period) - 1 - c + period))
  {
    hide Quiet, Reported, PowerOfTwo, SideTrips;
    var c := w.state.counter;
    OneRoundAtLeast(side, size);
    var p := Checkpoint(c, size, start, period);
    var most := 2 * Max(c + size * start, size * period) - 1 - c + period;
    ReportedAfter(w, d, side, size, start, period, p, most);
    RoundsReported(w, d, side, size, most);
  }

  lemma ReportedAfter(w: Walk, d: nat -> Id, side: nat -> seq<Step>, size: nat, start: nat, period: nat, p: nat,
                      most: nat)
    requires w.path != [] && 0 < w.state.counter < WIDTH && SideTrips(side, size) && size >= 1
    requires start > 0 && period > 0 && forall j :: start <= j ==> d(j + period) == d(j)
    requires PowerOfTwo(p) && w.state.counter + size * start <= p && size * period <= p
    requires w.state.counter < p <= most + w.state.counter - period
    ensures !Quiet(w, Rounds(d, side, most))
  {
    hide Quiet, PowerOfTwo, SideTrips, Total, Rounds;
    var c := w.state.counter;
    TotalBounds(side, size, p - c);
    var m := FirstRound(side, size, c, p, p - c);
    NotQuiet(w, d, side, size, start, period, p, m);
    if Quiet(w, Rounds(d, side, most)) { Shorter(w, d, side, m + period, most); }
  }

  lemma OneRoundAtLeast(side: nat -> seq<Step>, size: nat)
    requires SideTrips(side, size)
    ensures size >= 1
  {
    assert Trip(side(0), 0) && 1 + Enters(side(0)) <= size;
  }

  /** A power of two that leaves room for the cycle to begin and to come round. */
  lemma Checkpoint(c: nat, size: nat, start: nat, period: nat) returns (p: nat)
    requires size >= 1 && start > 0 && period > 0
    ensures PowerOfTwo(p) && c + size * start <= p && size * period <= p && c < p
    ensures p <= 2 * Max(c + size * start, size * period) - 1
  {
    hide PowerOfTwo;
    Product(size, start);
    p := UpperPower(Max(c + size * start, size * period));
  }

  /** After the root has been entered from a fresh state it takes at most three times as many rounds
      as the larger of the two numbers, times the size of a round. */
  lemma WalkCycleFoundFromRoot(root: Id, id: Id, d: nat -> Id, side: nat -> seq<Step>, size: nat, start: nat,
                               period: nat)
    requires SideTrips(side, size)
    requires start > 0 && period > 0 && forall j :: start <= j ==> d(j + period) == d(j)
    ensures Reported(AtRoot(root, id), Rounds(d, side, 3 * (size * Max(start, period))))
  {
    hide Quiet, Reported, PowerOfTwo, SideTrips;
    var w, most := AtRoot(root, id), 3 * (size * Max(start, period));
    RootEntered(root, id);
    OneRoundAtLeast(side, size);
    RoundsEnough(size, start, period);
    var p := Checkpoint(1, size, start, period);
    ReportedAfter(w, d, side, size, start, period, p, most);
    RoundsReported(w, d, side, size, most);
  }

  lemma RoundsEnough(size: nat, start: nat, period: nat)
    requires size >= 1 && start > 0 && period > 0
    ensures 0 <= 2 * Max(1 + size * start, size * period) - 2 + period <= 3 * (size * Max(start, period))
  {
    Product(size, start);
    if start < period { MoreTimes(size, start, period); }
    if period < start { MoreTimes(size, period, start); }
    assert size * period >= period by { assert size * period == period + (size - 1) * period; }
  }

  lemma Product(a: nat, b: nat)
    requires a >= 1 && b >= 1
    ensures a * b >= 1
  {
  }
}
