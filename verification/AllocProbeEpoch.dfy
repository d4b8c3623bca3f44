/** Into which measurement a delayed allocator call can report.

    The comment at the head of the probe says that epoch checks keep a delayed
    call out of a later measurement.  They do not: EPOCH is re-read before STATE,
    so a call counted while no measurement is open can see the old epoch and then
    the next measurement's ACTIVE.  This file gives such a run, bounds the delay
    by one epoch, and says exactly when it can happen. */
module AllocProbeEpoch {
  import opened Options
  import opened AllocProbe
  import opened AllocProbeInvariant
  import opened AllocProbeMeasurement

  /** Whatever is recorded is recorded under the observed epoch or the next. */
  lemma {:induction false} RecordedAtMostOneEpochLate(threads: nat, guards: nat, run: seq<Action>, i: nat)
    requires threads <= U64_MAX && Schedule(Initial(threads, guards), run)
    requires i < |Exec(Initial(threads, guards), run).log|
    ensures var entry := Exec(Initial(threads, guards), run).log[i];
      entry.epoch == entry.observed || entry.epoch == entry.observed + 1
  {
    InvAlways(threads, guards, run);
  }

  // ----- a run in which a call reports one measurement late -----

  /** `run` takes the meter, with one thread of each kind, from its initial
      state to `s`. */
  ghost predicate Reaches(run: seq<Action>, s: Meter) {
    Schedule(Initial(1, 1), run) && Exec(Initial(1, 1), run) == s && |s.threads| == 1 && |s.guards| == 1
  }

  lemma GuardTakesStep(run: seq<Action>, s: Meter) returns (run': seq<Action>, s': Meter)
    requires Reaches(run, s)
    ensures s' == NextGuard(s, 0, true) && run' == run + [GuardStep(0, true)] && Reaches(run', s')
  {
    run', s' := run + [GuardStep(0, true)], NextGuard(s, 0, true);
    ExecSnoc(Initial(1, 1), run, GuardStep(0, true));
  }

  lemma CallTakesStep(run: seq<Action>, s: Meter, outcome: Option<Event>) returns (run': seq<Action>, s': Meter)
    requires Reaches(run, s)
    ensures s' == NextReporter(s, 0, outcome) && run' == run + [ReporterStep(0, outcome)] && Reaches(run', s')
  {
    run', s' := run + [ReporterStep(0, outcome)], NextReporter(s, 0, outcome);
    ExecSnoc(Initial(1, 1), run, ReporterStep(0, outcome));
  }

  /** `begin`, alone. */
  lemma Opens(run: seq<Action>, s: Meter) returns (run': seq<Action>, s': Meter)
    requires Reaches(run, s) && s.guards == [NoGuard] && s.state == Idle
    ensures Reaches(run', s')
    ensures s' == s.(state := Active, epoch := s.epoch + 1, counters := ZERO, guards := [Running(s.epoch + 1)])
  {
    hide Exec, Schedule, Initial;
    run', s' := GuardTakesStep(run, s);
    run', s' := GuardTakesStep(run', s');
    run', s' := GuardTakesStep(run', s');
    run', s' := GuardTakesStep(run', s');
    run', s' := GuardTakesStep(run', s');
    assert s' == s.(state := Arming, counters := ZERO, guards := [BumpEpoch]);
    run', s' := GuardTakesStep(run', s');
    run', s' := GuardTakesStep(run', s');
  }

  /** `finish`, with nobody counted. */
  lemma Closes(run: seq<Action>, s: Meter, e: nat) returns (run': seq<Action>, s': Meter)
    requires Reaches(run, s) && s.guards == [Running(e)] && s.reporters == 0
    ensures Reaches(run', s')
    ensures s' == s.(state := Idle, guards := [NoGuard], results := s.results + [Measurement(e, s.counters)])
  {
    hide Exec, Schedule, Initial;
    var c := s.counters;
    run', s' := GuardTakesStep(run, s);
    run', s' := GuardTakesStep(run', s');
    assert s' == s.(state := Arming, guards := [ReadAllocations(e)]);
    run', s' := GuardTakesStep(run', s');
    run', s' := GuardTakesStep(run', s');
    assert s' == s.(state := Arming, guards := [ReadDeallocations(e, c.allocations, c.reallocations)]);
    run', s' := GuardTakesStep(run', s');
    run', s' := GuardTakesStep(run', s');
    assert s' == s.(state := Arming, guards := [Retire(e, Some(c))]);
    run', s' := GuardTakesStep(run', s');
  }

  /** The first measurement, in which the call only observes. */
  lemma ObservesOnly() returns (run: seq<Action>, s: Meter)
    ensures Reaches(run, s)
    ensures s == Meter(Active, 1, 0, ZERO, [StateRead(1)], [Running(1)], [], [])
  {
    run, s := [], Initial(1, 1);
    assert s == Meter(Idle, 0, 0, ZERO, [Outside], [NoGuard], [], []);
    run, s := Opens(run, s);
    run, s := CallTakesStep(run, s, None);
    run, s := CallTakesStep(run, s, None);
  }

  /** The call is counted, and re-reads EPOCH, after that measurement. */
  lemma ObservesAndIsCounted() returns (run: seq<Action>, s: Meter)
    ensures Reaches(run, s)
    ensures s == Meter(Idle, 1, 1, ZERO, [Rechecked(1, 1)], [NoGuard], [], [Measurement(1, ZERO)])
  {
    run, s := ObservesOnly();
    run, s := Closes(run, s, 1);
    run, s := CallTakesStep(run, s, None);
    run, s := CallTakesStep(run, s, None);
  }

  /** The documented confinement fails: by everything it observed the call
      belongs to measurement 1, and measurement 2 returns its allocation. */
  lemma DelayedCallReportsIntoNextMeasurement() returns (run: seq<Action>)
    ensures Schedule(Initial(1, 1), run)
    ensures var s := Exec(Initial(1, 1), run);
      && s.log == [Entry(1, 2, Allocation(64))]
      && s.results == [Measurement(1, ZERO), Measurement(2, AllocationStats(1, 0, 0, 64))]
  {
    hide Exec, Schedule, Initial;
    var s;
    run, s := ObservesAndIsCounted();
    run, s := Opens(run, s);
    var outcome := Some(Allocation(64));
    run, s := CallTakesStep(run, s, outcome);
    run, s := CallTakesStep(run, s, outcome);
    assert s.threads == [AddingBytes(1, 2, 64)] && s.log == [Entry(1, 2, Allocation(64))];
    run, s := CallTakesStep(run, s, outcome);
    run, s := CallTakesStep(run, s, outcome);
    run, s := Closes(run, s, 2);
  }

  // ----- exactly when it can happen -----

  /** `run` admits the call of thread `t`, stopped between the two re-reads,
      into an epoch other than the one it observed. */
  ghost predicate AdmitsLate(s: Meter, t: nat, run: seq<Action>)
    requires t < |s.threads| && s.threads[t].Rechecked?
  {
    && run != [] && Schedule(s, run)
    && (forall i :: 0 <= i < |run| - 1 ==> !(run[i].ReporterStep? && run[i].thread == t))
    && run[|run| - 1].ReporterStep? && run[|run| - 1].thread == t
    && var pc := Exec(s, run).threads[t];
       pc.Admitted? && pc.epoch != s.threads[t].observed
  }

  predicate Opening(pc: GuardPc) {
    pc.Publish? || pc.Running?
  }

  /** Either no measurement is between its increment and the end of its drain,
      or the next one is already past its increment and not yet draining. */
  ghost predicate LateWindow(s: Meter, observed: nat) {
    if s.epoch == observed then !SomeGuard(s, Open) else SomeGuard(s, Opening)
  }

  /** Guard steps until an open measurement, for a guard not in its drain. */
  function StepsToRunning(pc: GuardPc): nat {
    match pc
    case ReadAllocations(_) => 12
    case ReadReallocations(_, _) => 11
    case ReadDeallocations(_, _, _) => 10
    case ReadBytes(_, _, _, _) => 9
    case Retire(_, _) => 8
    case NoGuard => 7
    case ResetAllocations => 6
    case ResetReallocations => 5
    case ResetDeallocations => 4
    case ResetBytes => 3
    case BumpEpoch => 2
    case Publish(_) => 1
    case Running(_) => 0
    case Draining(_, _) => 13
  }

  /** The guard that is live, or any guard when none is. */
  ghost predicate Leads(s: Meter, g: nat) {
    g < |s.guards| && (s.guards[g].NoGuard? ==> forall h :: 0 <= h < |s.guards| ==> s.guards[h].NoGuard?)
  }

  lemma AdvanceTowardsRunning(s: Meter, g: nat, observed: nat)
    requires Exclusive(s) && observed <= s.epoch <= observed + 1
    requires LateWindow(s, observed) && Leads(s, g) && !s.guards[g].Running?
    ensures var s' := NextGuard(s, g, true);
      && s'.threads == s.threads && LateWindow(s', observed) && Leads(s', g)
      && StepsToRunning(s'.guards[g]) < StepsToRunning(s.guards[g])
  {
    var s' := NextGuard(s, g, true);
    assert forall h :: 0 <= h < |s.guards| && h != g ==> s'.guards[h] == s.guards[h] == NoGuard;
    assert Open(s.guards[g]) ==> SomeGuard(s, Open);
    assert Opening(s'.guards[g]) ==> SomeGuard(s', Opening);
  }

  lemma {:induction false} LateRunExists(s: Meter, t: nat, g: nat) returns (run: seq<Action>)
    requires Inv(s) && t < |s.threads| && s.threads[t].Rechecked? && s.threads[t].observed == s.threads[t].rechecked
    requires LateWindow(s, s.threads[t].observed) && Leads(s, g)
    ensures AdmitsLate(s, t, run)
    decreases StepsToRunning(s.guards[g])
  {
    if s.guards[g].Running? {
      run := [ReporterStep(t, None)];
      assert Open(s.guards[g]) && Opening(s.guards[g]);
      assert CallOk(s, s.threads[t]);
      ExecSnoc(s, [], run[0]);
      assert [] + [run[0]] == run;
    } else {
      assert CallOk(s, s.threads[t]);
      GuardKeepsInv(s, g, true);
      AdvanceTowardsRunning(s, g, s.threads[t].observed);
      var a := GuardStep(g, true);
      var rest := LateRunExists(NextGuard(s, g, true), t, g);
      ExecSnoc(s, [], a);
      assert [] + [a] == [a];
      ExecConcat(s, [a], rest);
      run := [a] + rest;
    }
  }

  /** With a call counted, a guard that is open but past opening is stuck in
      its drain, and one that is open at the observed epoch stays open. */
  lemma OpenGuardStays(s: Meter, g: nat, h: nat, finishing: bool)
    requires Exclusive(s) && s.reporters > 0 && g < |s.guards| && h < |s.guards| && Open(s.guards[g])
    ensures var s' := NextGuard(s, h, finishing);
      && Open(s'.guards[g]) && s'.epoch == s.epoch
      && (Opening(s'.guards[g]) ==> Opening(s.guards[g]))
      && (forall k :: 0 <= k < |s.guards| && k != g ==> s'.guards[k].NoGuard?)
  {
  }

  lemma OutsideWindowStep(s: Meter, t: nat, a: Action)
    requires Exclusive(s) && ReportersCounted(s) && Applies(s, a)
    requires t < |s.threads| && s.threads[t].Rechecked? && s.threads[t].observed == s.threads[t].rechecked && CallOk(s, s.threads[t])
    requires !LateWindow(s, s.threads[t].observed) && !(a.ReporterStep? && a.thread == t)
    ensures !LateWindow(Next(s, a), s.threads[t].observed) && Next(s, a).threads[t] == s.threads[t]
  {
    match a
    case ReporterStep(u, outcome) =>
      var s' := NextReporter(s, u, outcome);
      assert s'.guards == s.guards && s'.epoch == s.epoch;
    case GuardStep(h, finishing) =>
      var g :| 0 <= g < |s.guards| && Open(s.guards[g]);
      SumUpdate(Holds, s.threads, t, Outside);
      OpenGuardStays(s, g, h, finishing);
      assert Open(NextGuard(s, h, finishing).guards[g]);
  }

  lemma {:induction false} OutsideWindowStays(s: Meter, t: nat, run: seq<Action>)
    requires Inv(s) && Schedule(s, run) && t < |s.threads| && s.threads[t].Rechecked? && s.threads[t].observed == s.threads[t].rechecked
    requires !LateWindow(s, s.threads[t].observed)
    requires forall i :: 0 <= i < |run| ==> !(run[i].ReporterStep? && run[i].thread == t)
    ensures !LateWindow(Exec(s, run), s.threads[t].observed) && Exec(s, run).threads[t] == s.threads[t]
  {
    if run != [] {
      var before := run[..|run| - 1];
      OutsideWindowStays(s, t, before);
      InvOnRun(s, before);
      assert CallOk(Exec(s, before), s.threads[t]);
      OutsideWindowStep(Exec(s, before), t, run[|run| - 1]);
    }
  }

  lemma OutsideWindowAdmitsInTime(s: Meter, t: nat, outcome: Option<Event>)
    requires Inv(s) && t < |s.threads| && s.threads[t].Rechecked? && s.threads[t].observed == s.threads[t].rechecked
    requires !LateWindow(s, s.threads[t].observed)
    ensures var pc := NextReporter(s, t, outcome).threads[t]; pc.Admitted? ==> pc.epoch == s.threads[t].observed
  {
  }

  lemma OutsideWindowNotLate(s: Meter, t: nat, run: seq<Action>)
    requires Inv(s) && t < |s.threads| && s.threads[t].Rechecked? && s.threads[t].observed == s.threads[t].rechecked
    requires !LateWindow(s, s.threads[t].observed)
    ensures !AdmitsLate(s, t, run)
  {
    if run != [] && Schedule(s, run) && run[|run| - 1].ReporterStep? && run[|run| - 1].thread == t {
      var before := run[..|run| - 1];
      if forall i :: 0 <= i < |before| ==> !(before[i].ReporterStep? && before[i].thread == t) {
        OutsideWindowStays(s, t, before);
        InvOnRun(s, before);
        OutsideWindowAdmitsInTime(Exec(s, before), t, run[|run| - 1].outcome);
      }
    }
  }

  /** The exact condition, for a call stopped between its two re-reads: some
      schedule admits it into another measurement than the one it observed if
      and only if the late window is open.  Right after the re-read of EPOCH
      that means: no measurement is between its increment and the end of its
      drain at that moment. */
  lemma LateAdmissionExactly(s: Meter, t: nat)
    requires Inv(s) && s.guards != [] && t < |s.threads|
    requires s.threads[t].Rechecked? && s.threads[t].observed == s.threads[t].rechecked
    ensures (exists run :: AdmitsLate(s, t, run)) <==> LateWindow(s, s.threads[t].observed)
  {
    if LateWindow(s, s.threads[t].observed) {
      var g := if g :| 0 <= g < |s.guards| && !s.guards[g].NoGuard? then g else 0;
      var run := LateRunExists(s, t, g);
    } else {
      forall run ensures !AdmitsLate(s, t, run) {
        OutsideWindowNotLate(s, t, run);
      }
    }
  }

  /** The same at the moment of the re-read: a counted call whose observed epoch
      is still current can be admitted late exactly when no measurement is open. */
  lemma LateAdmissionAtReRead(s: Meter, t: nat, outcome: Option<Event>)
    requires Inv(s) && s.guards != [] && t < |s.threads| && s.threads[t] == Counted(s.epoch)
    ensures var s' := NextReporter(s, t, outcome);
      s'.threads[t].Rechecked? && ((exists run :: AdmitsLate(s', t, run)) <==> !SomeGuard(s, Open))
  {
    var s' := NextReporter(s, t, outcome);
    ReporterKeepsInv(s, t, outcome);
    LateAdmissionExactly(s', t);
  }
}
