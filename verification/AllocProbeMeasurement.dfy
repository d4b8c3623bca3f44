/** What the allocation meter promises over whole runs: exact snapshots, one
    measurement at a time, a complete window, and a drain that ends. */
module AllocProbeMeasurement {
  import opened Options
  import opened AllocProbe
  import opened AllocProbeInvariant

  // ----- runs -----

  lemma ExecSnoc(s: Meter, run: seq<Action>, a: Action)
    requires Schedule(s, run) && Applies(s, a)
    ensures Schedule(s, run + [a]) && Exec(s, run + [a]) == Next(Exec(s, run), a)
  {
  }

  lemma Regroup(a: seq<Action>, b: seq<Action>, c: seq<Action>)
    ensures a + (b + c) == (a + b) + c
  {
  }

  lemma {:induction false} ExecConcat(s: Meter, first: seq<Action>, second: seq<Action>)
    requires Schedule(s, first) && Schedule(s, second)
    ensures Schedule(s, first + second) && Exec(s, first + second) == Exec(Exec(s, first), second)
  {
    if second == [] {
      assert first + second == first;
    } else {
      hide Exec;
      var init, a := second[..|second| - 1], second[|second| - 1];
      assert second == init + [a];
      ExecConcat(s, first, init);
      ExecSnoc(Exec(s, first), init, a);
      ExecSnoc(s, first + init, a);
      Regroup(first, init, [a]);
    }
  }

  // ----- safety -----

  /** How often anything was allocated, reallocated or freed under `epoch`, and
      the bytes asked for, a reallocation counting its whole new size. */
  function Totals(log: seq<Entry>, epoch: nat): AllocationStats {
    if log == [] then AllocationStats(0, 0, 0, 0)
    else
      var t, last := Totals(log[..|log| - 1], epoch), log[|log| - 1];
      if last.epoch != epoch then t
      else
        match last.event
        case Allocation(size) => AllocationStats(t.allocations + 1, t.reallocations, t.deallocations, t.requestedBytes + size)
        case Reallocation(newSize) => AllocationStats(t.allocations, t.reallocations + 1, t.deallocations, t.requestedBytes + newSize)
        case Deallocation => AllocationStats(t.allocations, t.reallocations, t.deallocations + 1, t.requestedBytes)
  }

  /** What 64 bits can tell of a number. */
  function Capped(n: nat): nat {
    if n < 0x1_0000_0000_0000_0000 then n else 0xFFFF_FFFF_FFFF_FFFF
  }

  function CappedStats(t: AllocationStats): AllocationStats {
    AllocationStats(Capped(t.allocations), Capped(t.reallocations), Capped(t.deallocations), Capped(t.requestedBytes))
  }

  /** Capping every size and then every sum is capping the sum of the sizes. */
  lemma {:induction false} RecordedIsExact(log: seq<Entry>, epoch: nat)
    ensures var r, t := Recorded(log, epoch), Totals(log, epoch);
      && SaturateStats(r) == CappedStats(t) && r.requestedBytes <= t.requestedBytes
      && r.allocations == t.allocations && r.reallocations == t.reallocations && r.deallocations == t.deallocations
  {
    if log != [] {
      RecordedIsExact(log[..|log| - 1], epoch);
    }
  }

  /** Every measurement ever returned is the exact total of the events recorded
      under its epoch in the whole run, capped to 64 bits; no two share an epoch. */
  lemma {:induction false} SnapshotsAreExact(threads: nat, guards: nat, run: seq<Action>)
    requires threads <= U64_MAX && Schedule(Initial(threads, guards), run)
    ensures var s := Exec(Initial(threads, guards), run);
      && (forall i :: 0 <= i < |s.results| ==> s.results[i].stats == CappedStats(Totals(s.log, s.results[i].epoch)))
      && (forall i, j :: 0 <= i < j < |s.results| ==> s.results[i].epoch < s.results[j].epoch)
  {
    InvAlways(threads, guards, run);
    hide Exec, Recorded, Totals, SaturateStats, CappedStats;
    var s := Exec(Initial(threads, guards), run);
    forall i | 0 <= i < |s.results| ensures s.results[i].stats == CappedStats(Totals(s.log, s.results[i].epoch)) {
      RecordedIsExact(s.log, s.results[i].epoch);
    }
  }

  predicate IsAdmitted(pc: ReporterPc) {
    pc.Admitted? || pc.AddingBytes? || pc.Leaving?
  }

  /** Resets and snapshots never overlap an admitted call: while any call is
      admitted the one live guard is running or still draining, in the call's
      own epoch. */
  lemma {:induction false} AdmittedOnlyWhileMeasuring(threads: nat, guards: nat, run: seq<Action>, t: nat, g: nat)
    requires threads <= U64_MAX && Schedule(Initial(threads, guards), run) && t < threads && g < guards
    requires var s := Exec(Initial(threads, guards), run); IsAdmitted(s.threads[t]) && !s.guards[g].NoGuard?
    ensures var s := Exec(Initial(threads, guards), run);
      Measuring(s.guards[g]) && s.guards[g].epoch == s.epoch == s.threads[t].epoch
  {
    InvAlways(threads, guards, run);
    var s := Exec(Initial(threads, guards), run);
    assert CallOk(s, s.threads[t]) && GuardOk(s, s.guards[g]);
  }

  /** STATE is non-idle exactly when a guard is live, there is never a second
      one, and ACTIVE_REPORTERS is the number of calls that hold a unit of it. */
  lemma {:induction false} OneGuardAtATime(threads: nat, guards: nat, run: seq<Action>)
    requires threads <= U64_MAX && Schedule(Initial(threads, guards), run)
    ensures var s := Exec(Initial(threads, guards), run);
      && (s.state != Idle <==> exists g :: 0 <= g < guards && !s.guards[g].NoGuard?)
      && (forall g, h :: 0 <= g < h < guards ==> s.guards[g].NoGuard? || s.guards[h].NoGuard?)
      && s.reporters == SumOf(Holds, s.threads)
  {
    InvAlways(threads, guards, run);
  }

  // ----- completeness -----

  /** Guard `g` is running before every step of `run` and after the last. */
  ghost predicate RunningThroughout(s: Meter, run: seq<Action>, g: nat)
    requires Schedule(s, run)
  {
    g < |s.guards| && forall n :: 0 <= n <= |run| ==> Exec(s, run[..n]).guards[g].Running?
  }

  /** Thread `t`'s step lets the call it is in go unmeasured. */
  predicate GoesUnmeasured(s: Meter, a: Action, t: nat)
    requires Applies(s, a) && t < |s.threads|
  {
    && a.ReporterStep? && a.thread == t
    && (s.threads[t].EpochRead? || s.threads[t].Rejected?)
    && Next(s, a).threads[t].Outside?
  }

  predicate WithinEpoch(pc: ReporterPc, epoch: nat) {
    match pc
    case Outside => true
    case EpochRead(o) => o == epoch
    case StateRead(o) => o == epoch
    case Counted(o) => o == epoch
    case Rechecked(o, r) => o == r == epoch
    case Rejected => false
    case Admitted(o, e) => o == e == epoch
    case AddingBytes(o, e, _) => o == e == epoch
    case Leaving(o, e) => o == e == epoch
  }

  lemma WindowStep(s: Meter, a: Action, t: nat, g: nat)
    requires Inv(s) && Applies(s, a) && t < |s.threads| && g < |s.guards|
    requires s.guards[g].Running? && Next(s, a).guards[g].Running? && WithinEpoch(s.threads[t], s.epoch)
    ensures !GoesUnmeasured(s, a, t)
    ensures Next(s, a).epoch == s.epoch && WithinEpoch(Next(s, a).threads[t], s.epoch)
  {
  }

  lemma {:induction false} WindowKeeps(s: Meter, run: seq<Action>, t: nat, g: nat)
    requires Inv(s) && Schedule(s, run) && t < |s.threads| && s.threads[t].Outside?
    requires RunningThroughout(s, run, g)
    ensures Exec(s, run).epoch == s.epoch && WithinEpoch(Exec(s, run).threads[t], s.epoch)
  {
    if run == [] {
    } else {
      var before := run[..|run| - 1];
      assert forall n :: 0 <= n <= |before| ==> before[..n] == run[..n];
      assert run[..|run|] == run;
      WindowKeeps(s, before, t, g);
      InvOnRun(s, before);
      WindowStep(Exec(s, before), run[|run| - 1], t, g);
    }
  }

  /** No allocator call made inside the window is missed: a call that starts
      while a guard runs, and keeps finding it running, is never turned away, and
      its event is recorded in the epoch of that guard. */
  lemma {:induction false} WindowMissesNothing(s: Meter, run: seq<Action>, t: nat, g: nat, n: nat)
    requires Inv(s) && Schedule(s, run) && t < |s.threads| && s.threads[t].Outside?
    requires RunningThroughout(s, run, g) && n < |run|
    ensures Schedule(s, run[..n])
    ensures !GoesUnmeasured(Exec(s, run[..n]), run[n], t)
    ensures WithinEpoch(Exec(s, run[..n + 1]).threads[t], s.epoch)
    ensures var now := Exec(s, run[..n]);
      run[n].ReporterStep? && run[n].thread == t && now.threads[t].Admitted? && run[n].outcome.Some? ==>
        Exec(s, run[..n + 1]).log == now.log + [Entry(s.epoch, s.epoch, run[n].outcome.value)]
  {
    var before := run[..n];
    assert forall m :: 0 <= m <= n ==> before[..m] == run[..m];
    WindowKeeps(s, before, t, g);
    InvOnRun(s, before);
    assert run[..n + 1] == before + [run[n]];
    ExecSnoc(s, before, run[n]);
    WindowStep(Exec(s, before), run[n], t, g);
  }

  // ----- the drain ends -----

  /** The step is one that `StepsLeft` counts. */
  predicate CountedStep(s: Meter, a: Action)
    requires Applies(s, a)
  {
    a.ReporterStep? && StepsLeft(s.threads[a.thread]) > 0
  }

  lemma StepsLeftShrink(s: Meter, t: nat, outcome: Option<Event>)
    requires t < |s.threads| && s.state != Active
    ensures var pc := NextReporter(s, t, outcome).threads[t];
      StepsLeft(s.threads[t]) == 0 == StepsLeft(pc) || StepsLeft(pc) < StepsLeft(s.threads[t])
  {
  }

  lemma DrainStep(s: Meter, a: Action, g: nat)
    requires Exclusive(s) && Applies(s, a) && g < |s.guards| && s.guards[g].Draining?
    ensures SumOf(StepsLeft, Next(s, a).threads) + (if CountedStep(s, a) then 1 else 0) <= SumOf(StepsLeft, s.threads)
  {
    if a.ReporterStep? {
      StepsLeftShrink(s, a.thread, a.outcome);
      SumUpdate(StepsLeft, s.threads, a.thread, Next(s, a).threads[a.thread]);
    }
  }

  /** While a drain lasts, ACTIVE_REPORTERS is nonzero only as long as some
      call has counted steps left to take; once it is zero the drain is over. */
  lemma DrainEndsWhenEmpty(s: Meter, g: nat, finishing: bool)
    requires Inv(s) && g < |s.guards| && s.guards[g].Draining?
    ensures s.reporters != 0 ==> exists t :: 0 <= t < |s.threads| && StepsLeft(s.threads[t]) > 0
    ensures s.reporters == 0 ==> !NextGuard(s, g, finishing).guards[g].Draining?
    ensures SumOf(StepsLeft, s.threads) == 0 ==> s.reporters == 0
  {
    SumZero(Holds, s.threads);
    SumZero(StepsLeft, s.threads);
  }

  ghost function CountedSteps(s: Meter, run: seq<Action>): nat
    requires Schedule(s, run)
  {
    if run == [] then 0
    else
      var before := run[..|run| - 1];
      CountedSteps(s, before) + if CountedStep(Exec(s, before), run[|run| - 1]) then 1 else 0
  }

  ghost predicate DrainingThroughout(s: Meter, run: seq<Action>, g: nat)
    requires Schedule(s, run)
  {
    g < |s.guards| && forall n :: 0 <= n <= |run| ==> Exec(s, run[..n]).guards[g].Draining?
  }

  /** However long a drain is scheduled, the calls can take only the steps they
      had left when it began: nobody new comes to touch the count. */
  lemma {:induction false} DrainIsBounded(s: Meter, run: seq<Action>, g: nat)
    requires Inv(s) && Schedule(s, run) && DrainingThroughout(s, run, g)
    ensures CountedSteps(s, run) + SumOf(StepsLeft, Exec(s, run).threads) <= SumOf(StepsLeft, s.threads) <= 6 * |s.threads|
  {
    SumBounded(StepsLeft, s.threads, 6);
    if run != [] {
      var before := run[..|run| - 1];
      assert forall n :: 0 <= n <= |before| ==> before[..n] == run[..n];
      DrainIsBounded(s, before, g);
      InvOnRun(s, before);
      DrainStep(Exec(s, before), run[|run| - 1], g);
    }
  }

  function StepsOf(run: seq<Action>, t: nat): nat {
    if run == [] then 0
    else
      var last := run[|run| - 1];
      StepsOf(run[..|run| - 1], t) + if last.ReporterStep? && last.thread == t then 1 else 0
  }

  /** In a drain every step of a call uses up one of the at most six it has. */
  lemma {:induction false} StepsAreUsedUp(s: Meter, run: seq<Action>, g: nat, t: nat)
    requires Inv(s) && Schedule(s, run) && DrainingThroughout(s, run, g) && t < |s.threads|
    ensures var left := StepsLeft(Exec(s, run).threads[t]); left == 0 || left + StepsOf(run, t) <= 6
  {
    if run != [] {
      var before, last := run[..|run| - 1], run[|run| - 1];
      assert forall n :: 0 <= n <= |before| ==> before[..n] == run[..n];
      assert run[..|before|] == before;
      StepsAreUsedUp(s, before, g, t);
      InvOnRun(s, before);
      hide StepsLeft;
      DrainStepOf(Exec(s, before), last, g, t);
    }
  }

  lemma DrainStepOf(s: Meter, x: Action, g: nat, t: nat)
    requires Exclusive(s) && Applies(s, x) && g < |s.guards| && s.guards[g].Draining? && t < |s.threads|
    ensures var left, own := StepsLeft(Next(s, x).threads[t]), x.ReporterStep? && x.thread == t;
      left == 0 || left + (if own then 1 else 0) <= StepsLeft(s.threads[t])
  {
    if x.ReporterStep? && x.thread == t {
      StepsLeftShrink(s, t, x.outcome);
    }
  }

  /** A drain ends: whatever else is scheduled, the guard has left it once every
      thread has taken six steps and after that the guard one. */
  lemma DrainEnds(s: Meter, run: seq<Action>, g: nat, k: nat)
    requires Inv(s) && Schedule(s, run) && g < |s.guards|
    requires k < |run| && run[k].GuardStep? && run[k].guard == g
    requires forall t :: 0 <= t < |s.threads| ==> StepsOf(run[..k], t) >= 6
    ensures Schedule(s, run[..k]) && Schedule(s, run[..k + 1])
    ensures !Exec(s, run[..k + 1]).guards[g].Draining? || !DrainingThroughout(s, run[..k], g)
  {
    var before := run[..k];
    if DrainingThroughout(s, before, g) {
      forall t | 0 <= t < |s.threads| ensures StepsLeft(Exec(s, before).threads[t]) == 0 {
        StepsAreUsedUp(s, before, g, t);
      }
      InvOnRun(s, before);
      assert before[..k] == before;
      SumZero(StepsLeft, Exec(s, before).threads);
      DrainEndsWhenEmpty(Exec(s, before), g, run[k].finishing);
      ExecSnoc(s, before, run[k]);
      assert run[..k + 1] == before + [run[k]];
    }
  }

  // ----- budgets -----

  datatype Budget = Budget(allocationCalls: nat, requestedBytes: nat)

  function AllocationCalls(stats: AllocationStats): nat {
    Saturate(stats.allocations + stats.reallocations)
  }

  predicate Accepts(budget: Budget, stats: AllocationStats) {
    AllocationCalls(stats) <= budget.allocationCalls && stats.requestedBytes <= budget.requestedBytes
  }

  /** A bound of `u64::MAX` is no bound; any smaller one is a bound on the exact count. */
  predicate Within(exact: nat, limit: nat) {
    limit == 0xFFFF_FFFF_FFFF_FFFF || exact <= limit
  }

  /** Saturation never lets a budget through: a returned measurement is
      accepted exactly when the true totals of its epoch are within budget. */
  lemma {:induction false} BudgetsJudgeExactTotals(threads: nat, guards: nat, run: seq<Action>, i: nat, budget: Budget)
    requires threads <= U64_MAX && Schedule(Initial(threads, guards), run)
    requires i < |Exec(Initial(threads, guards), run).results|
    requires budget.allocationCalls <= U64_MAX && budget.requestedBytes <= U64_MAX
    ensures var s := Exec(Initial(threads, guards), run);
      var t := Totals(s.log, s.results[i].epoch);
      var exactWithin := Within(t.allocations + t.reallocations, budget.allocationCalls) && Within(t.requestedBytes, budget.requestedBytes);
      Accepts(budget, s.results[i].stats) <==> exactWithin
  {
    SnapshotsAreExact(threads, guards, run);
    hide Exec, Totals;
  }
}
