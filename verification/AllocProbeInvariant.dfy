/** What every reachable state of the allocation meter satisfies. */
module AllocProbeInvariant {
  import opened Options
  import opened AllocProbe

  // ----- the exact counts, without saturation -----

  /** What calls admitted in `epoch` have recorded, each event as it is counted. */
  function Recorded(log: seq<Entry>, epoch: nat): AllocationStats {
    if log == [] then ZERO
    else
      var t, entry := Recorded(log[..|log| - 1], epoch), log[|log| - 1];
      if entry.epoch != epoch then t
      else
        match entry.event
        case Allocation(_) => t.(allocations := t.allocations + 1, requestedBytes := t.requestedBytes + BytesOf(entry.event))
        case Reallocation(_) => t.(reallocations := t.reallocations + 1, requestedBytes := t.requestedBytes + BytesOf(entry.event))
        case Deallocation => t.(deallocations := t.deallocations + 1)
  }

  function SaturateStats(t: AllocationStats): AllocationStats {
    AllocationStats(Saturate(t.allocations), Saturate(t.reallocations), Saturate(t.deallocations), Saturate(t.requestedBytes))
  }

  lemma RecordedAppend(log: seq<Entry>, entry: Entry, epoch: nat)
    ensures entry.epoch != epoch ==> Recorded(log + [entry], epoch) == Recorded(log, epoch)
    ensures entry.epoch == epoch ==>
      var t, t' := Recorded(log, epoch), Recorded(log + [entry], epoch);
      && t'.allocations == t.allocations + (if entry.event.Allocation? then 1 else 0)
      && t'.reallocations == t.reallocations + (if entry.event.Reallocation? then 1 else 0)
      && t'.deallocations == t.deallocations + (if entry.event.Deallocation? then 1 else 0)
      && t'.requestedBytes == t.requestedBytes + BytesOf(entry.event)
  {
  }

  lemma {:induction false} RecordedBefore(log: seq<Entry>, epoch: nat)
    requires forall i :: 0 <= i < |log| ==> log[i].epoch != epoch
    ensures Recorded(log, epoch) == ZERO
  {
    if log != [] {
      RecordedBefore(log[..|log| - 1], epoch);
    }
  }

  // ----- the phases of a measurement -----

  /** The epoch is bumped and the drain is not over. */
  predicate Open(pc: GuardPc) {
    pc.Publish? || Measuring(pc)
  }

  predicate Measuring(pc: GuardPc) {
    pc.Running? || pc.Draining?
  }

  /** The guard's own increment has happened. */
  predicate Bumped(pc: GuardPc) {
    Open(pc) || pc.ReadAllocations? || pc.ReadReallocations? || pc.ReadDeallocations? || pc.ReadBytes? || pc.Retire?
  }

  function StateFor(pc: GuardPc): MeterState {
    if pc.NoGuard? then Idle else if pc.Running? then Active else Arming
  }

  ghost predicate SomeGuard(s: Meter, p: GuardPc -> bool) {
    exists g :: 0 <= g < |s.guards| && p(s.guards[g])
  }

  // ----- the invariant -----

  /** STATE is non-idle exactly while one guard is live, and says its phase. */
  ghost predicate Exclusive(s: Meter) {
    && (forall g, h :: 0 <= g < |s.guards| && 0 <= h < |s.guards| && !s.guards[g].NoGuard? && !s.guards[h].NoGuard? ==> g == h)
    && (forall g :: 0 <= g < |s.guards| && !s.guards[g].NoGuard? ==> s.state == StateFor(s.guards[g]))
    && ((forall g :: 0 <= g < |s.guards| ==> s.guards[g].NoGuard?) ==> s.state == Idle)
  }

  ghost predicate ReportersCounted(s: Meter) {
    |s.threads| <= U64_MAX && s.reporters == SumOf(Holds, s.threads)
  }

  /** What a call's position says about the epoch and the open measurement. */
  ghost predicate CallOk(s: Meter, pc: ReporterPc) {
    match pc
    case Outside => true
    case EpochRead(o) => o <= s.epoch
    case StateRead(o) => o <= s.epoch
    case Counted(o) => o <= s.epoch
    case Rechecked(o, r) => o <= r && (s.epoch == r || (s.epoch == r + 1 && SomeGuard(s, Open)))
    case Rejected => true
    case Admitted(o, e) => AdmittedOk(s, o, e)
    case AddingBytes(o, e, _) => AdmittedOk(s, o, e)
    case Leaving(o, e) => AdmittedOk(s, o, e)
  }

  ghost predicate AdmittedOk(s: Meter, observed: nat, epoch: nat) {
    epoch == s.epoch && observed <= epoch <= observed + 1 && SomeGuard(s, Measuring)
  }

  ghost predicate CallsOk(s: Meter) {
    forall t :: 0 <= t < |s.threads| ==> CallOk(s, s.threads[t])
  }

  /** The counters are the saturated exact counts of the current epoch, up to
      the bytes that admitted calls have still to add. */
  ghost predicate CountersExact(s: Meter) {
    var t, pending := Recorded(s.log, s.epoch), SumOf(PendingBytes, s.threads);
    && pending <= t.requestedBytes
    && s.counters == SaturateStats(t.(requestedBytes := t.requestedBytes - pending))
  }

  ghost predicate GuardOk(s: Meter, pc: GuardPc) {
    var c := s.counters;
    match pc
    case NoGuard => true
    case ResetAllocations => true
    case ResetReallocations => c.allocations == 0
    case ResetDeallocations => c.allocations == c.reallocations == 0
    case ResetBytes => c.allocations == c.reallocations == c.deallocations == 0
    case BumpEpoch => c == ZERO
    case Publish(e) => e == s.epoch && CountersExact(s)
    case Running(e) => e == s.epoch && CountersExact(s)
    case Draining(e, _) => e == s.epoch && CountersExact(s)
    case ReadAllocations(e) => e == s.epoch && CountersExact(s)
    case ReadReallocations(e, a) => e == s.epoch && CountersExact(s) && a == c.allocations
    case ReadDeallocations(e, a, r) => e == s.epoch && CountersExact(s) && a == c.allocations && r == c.reallocations
    case ReadBytes(e, a, r, d) =>
      e == s.epoch && CountersExact(s) && a == c.allocations && r == c.reallocations && d == c.deallocations
    case Retire(e, stats) => e == s.epoch && CountersExact(s) && (stats.Some? ==> stats.value == c)
  }

  ghost predicate GuardsOk(s: Meter) {
    forall g :: 0 <= g < |s.guards| ==> GuardOk(s, s.guards[g])
  }

  ghost predicate LogOk(s: Meter) {
    forall i :: 0 <= i < |s.log| ==> s.log[i].observed <= s.log[i].epoch <= s.log[i].observed + 1 && s.log[i].epoch <= s.epoch
  }

  /** Every result handed out is final: exact, and of an epoch that is over
      and belongs to no other result. */
  ghost predicate ResultsOk(s: Meter) {
    && (forall i, j :: 0 <= i < j < |s.results| ==> s.results[i].epoch < s.results[j].epoch)
    && forall i :: 0 <= i < |s.results| ==>
      && s.results[i].stats == SaturateStats(Recorded(s.log, s.results[i].epoch))
      && s.results[i].epoch <= s.epoch
      && (SomeGuard(s, Bumped) ==> s.results[i].epoch < s.epoch)
  }

  ghost predicate Inv(s: Meter) {
    Exclusive(s) && ReportersCounted(s) && CallsOk(s) && GuardsOk(s) && LogOk(s) && ResultsOk(s)
  }

  // ----- consequences used by the step lemmas -----

  lemma NobodyAddsBytes(s: Meter)
    requires CallsOk(s) && !SomeGuard(s, Measuring)
    ensures SumOf(PendingBytes, s.threads) == 0
  {
    SumZero(PendingBytes, s.threads);
  }

  lemma NobodyHolds(s: Meter)
    requires ReportersCounted(s) && s.reporters == 0
    ensures forall t :: 0 <= t < |s.threads| ==> Holds(s.threads[t]) == 0
  {
    SumZero(Holds, s.threads);
  }

  // ----- steps of the allocator threads -----

  lemma FetchFits(n: nat)
    requires n <= U64_MAX
    ensures n < U64_MAX ==> FetchAdd(n) == n + 1
    ensures n > 0 ==> FetchSub(n) == n - 1
  {
  }

  lemma ReporterKeepsCount(s: Meter, t: nat, outcome: Option<Event>)
    requires ReportersCounted(s) && t < |s.threads|
    ensures ReportersCounted(NextReporter(s, t, outcome))
  {
    hide CountCall, BytesOf, SumOf;
    var s' := NextReporter(s, t, outcome);
    SumUpdate(Holds, s.threads, t, s'.threads[t]);
    assert s'.threads == s.threads[t := s'.threads[t]];
    SumBounded(Holds, s.threads, 1);
    SumBounded(Holds, s'.threads, 1);
    FetchFits(s.reporters);
  }

  lemma CallOkFrame(s: Meter, s': Meter, pc: ReporterPc)
    requires CallOk(s, pc) && s'.epoch == s.epoch && s'.guards == s.guards
    ensures CallOk(s', pc)
  {
  }

  lemma CallMoves(s: Meter, t: nat, outcome: Option<Event>)
    requires Exclusive(s) && t < |s.threads| && CallOk(s, s.threads[t])
    ensures CallOk(s, NextReporter(s, t, outcome).threads[t])
  {
  }

  lemma ReporterKeepsCalls(s: Meter, t: nat, outcome: Option<Event>)
    requires Exclusive(s) && CallsOk(s) && t < |s.threads|
    ensures CallsOk(NextReporter(s, t, outcome))
  {
    var s' := NextReporter(s, t, outcome);
    forall u | 0 <= u < |s'.threads| ensures CallOk(s', s'.threads[u]) {
      assert CallOk(s, s.threads[u]) && CallOk(s, s.threads[t]);
      CallMoves(s, t, outcome);
      CallOkFrame(s, s', s'.threads[u]);
    }
  }

  lemma RecordKeepsCounters(s: Meter, t: nat, event: Event)
    requires t < |s.threads| && s.threads[t].Admitted? && s.threads[t].epoch == s.epoch && CountersExact(s)
    ensures CountersExact(NextReporter(s, t, Some(event)))
  {
    var s' := NextReporter(s, t, Some(event));
    SumUpdate(PendingBytes, s.threads, t, s'.threads[t]);
    RecordedAppend(s.log, Entry(s.threads[t].observed, s.epoch, event), s.epoch);
  }

  lemma AddingKeepsCounters(s: Meter, t: nat, outcome: Option<Event>)
    requires t < |s.threads| && s.threads[t].AddingBytes? && CountersExact(s)
    ensures CountersExact(NextReporter(s, t, outcome))
  {
    SumUpdate(PendingBytes, s.threads, t, NextReporter(s, t, outcome).threads[t]);
  }

  /** The steps that touch neither a counter nor the log. */
  lemma PassingKeepsCounters(s: Meter, t: nat, outcome: Option<Event>)
    requires t < |s.threads| && !s.threads[t].AddingBytes? && !(s.threads[t].Admitted? && outcome.Some?)
    ensures var s' := NextReporter(s, t, outcome);
      && s'.counters == s.counters && s'.log == s.log
      && (CountersExact(s) ==> CountersExact(s'))
  {
    SumUpdate(PendingBytes, s.threads, t, NextReporter(s, t, outcome).threads[t]);
  }

  lemma ReporterKeepsCounters(s: Meter, t: nat, outcome: Option<Event>)
    requires t < |s.threads| && CallOk(s, s.threads[t]) && CountersExact(s)
    ensures CountersExact(NextReporter(s, t, outcome))
  {
    if s.threads[t].AddingBytes? {
      AddingKeepsCounters(s, t, outcome);
    } else if s.threads[t].Admitted? && outcome.Some? {
      RecordKeepsCounters(s, t, outcome.value);
    } else {
      PassingKeepsCounters(s, t, outcome);
    }
  }

  /** Whoever changes a counter is admitted, so the live guard is measuring. */
  lemma ReporterFrame(s: Meter, t: nat, outcome: Option<Event>)
    requires t < |s.threads| && CallOk(s, s.threads[t])
    ensures var s' := NextReporter(s, t, outcome);
      && s'.guards == s.guards && s'.epoch == s.epoch && s'.state == s.state && s'.results == s.results
      && (s'.counters != s.counters || s'.log != s.log ==> SomeGuard(s, Measuring))
  {
  }

  lemma ReporterKeepsGuard(s: Meter, s': Meter, pc: GuardPc)
    requires GuardOk(s, pc) && s'.epoch == s.epoch
    requires CountersExact(s) ==> CountersExact(s')
    requires s'.counters != s.counters ==> Measuring(pc) || pc.NoGuard?
    ensures GuardOk(s', pc)
  {
  }

  lemma ReporterKeepsGuards(s: Meter, t: nat, outcome: Option<Event>)
    requires Exclusive(s) && CallsOk(s) && GuardsOk(s) && t < |s.threads|
    ensures GuardsOk(NextReporter(s, t, outcome))
  {
    var s' := NextReporter(s, t, outcome);
    assert CallOk(s, s.threads[t]);
    ReporterFrame(s, t, outcome);
    if CountersExact(s) {
      ReporterKeepsCounters(s, t, outcome);
    }
    forall g | 0 <= g < |s'.guards| ensures GuardOk(s', s'.guards[g]) {
      assert GuardOk(s, s.guards[g]);
      ReporterKeepsGuard(s, s', s.guards[g]);
    }
  }

  lemma MeasuringIsBumped(s: Meter)
    requires SomeGuard(s, Measuring)
    ensures SomeGuard(s, Bumped)
  {
  }

  lemma ReporterKeepsLog(s: Meter, t: nat, outcome: Option<Event>)
    requires CallsOk(s) && LogOk(s) && t < |s.threads|
    ensures LogOk(NextReporter(s, t, outcome))
  {
  }

  lemma ReporterKeepsResults(s: Meter, t: nat, outcome: Option<Event>)
    requires CallsOk(s) && ResultsOk(s) && t < |s.threads|
    ensures ResultsOk(NextReporter(s, t, outcome))
  {
    var s' := NextReporter(s, t, outcome);
    assert CallOk(s, s.threads[t]);
    ReporterFrame(s, t, outcome);
    if s'.log != s.log {
      MeasuringIsBumped(s);
      forall i | 0 <= i < |s.results| ensures Recorded(s'.log, s.results[i].epoch) == Recorded(s.log, s.results[i].epoch) {
        RecordedAppend(s.log, Entry(s.threads[t].observed, s.epoch, outcome.value), s.results[i].epoch);
      }
    }
  }

  lemma ReporterKeepsInv(s: Meter, t: nat, outcome: Option<Event>)
    requires Inv(s) && t < |s.threads|
    ensures Inv(NextReporter(s, t, outcome))
  {
    ReporterKeepsCount(s, t, outcome);
    ReporterKeepsCalls(s, t, outcome);
    ReporterKeepsGuards(s, t, outcome);
    ReporterFrame(s, t, outcome);
    ReporterKeepsLog(s, t, outcome);
    ReporterKeepsResults(s, t, outcome);
  }

  // ----- steps of the measuring threads -----

  /** A guard step touches no other guard, and keeps STATE at its own phase. */
  lemma GuardStepState(s: Meter, g: nat, finishing: bool)
    requires g < |s.guards| && (s.guards[g].NoGuard? || s.state == StateFor(s.guards[g]))
    ensures var s' := NextGuard(s, g, finishing);
      && s'.guards == s.guards[g := s'.guards[g]]
      && (s' == s || s'.state == StateFor(s'.guards[g]))
      && (s.guards[g].NoGuard? && s' != s ==> s.state == Idle)
  {
  }

  lemma GuardKeepsExclusive(s: Meter, g: nat, finishing: bool)
    requires Exclusive(s) && g < |s.guards|
    ensures Exclusive(NextGuard(s, g, finishing))
  {
    GuardStepState(s, g, finishing);
    hide NextGuard;
    var s' := NextGuard(s, g, finishing);
    if s'.guards[g].NoGuard? && !s.guards[g].NoGuard? {
      assert forall h :: 0 <= h < |s'.guards| ==> s'.guards[h].NoGuard?;
    }
  }

  /** No call is admitted, or stopped between its re-reads with the epoch moved on. */
  predicate NothingAtStake(pc: ReporterPc, epoch: nat) {
    match pc
    case Rechecked(_, r) => epoch == r
    case Admitted(_, _) => false
    case AddingBytes(_, _, _) => false
    case Leaving(_, _) => false
    case _ => true
  }

  /** A call's position survives a guard step that keeps the epoch and does not
      end the open phase, or that finds nothing at stake. */
  lemma CallSurvives(s: Meter, s': Meter, pc: ReporterPc)
    requires CallOk(s, pc)
    requires s'.epoch == s.epoch || (s'.epoch == s.epoch + 1 && SomeGuard(s', Open))
    requires NothingAtStake(pc, s.epoch)
      || (s'.epoch == s.epoch && (SomeGuard(s, Open) ==> SomeGuard(s', Open)) && (SomeGuard(s, Measuring) ==> SomeGuard(s', Measuring)))
    ensures CallOk(s', pc)
  {
  }

  /** What a guard step does to the open and measuring phases. */
  lemma GuardPhases(s: Meter, g: nat, finishing: bool)
    requires Exclusive(s) && g < |s.guards|
    ensures var s' := NextGuard(s, g, finishing);
      && (s'.epoch == s.epoch || (s.guards[g].BumpEpoch? && s'.epoch == s.epoch + 1 && SomeGuard(s', Open)))
      && (SomeGuard(s, Open) && !SomeGuard(s', Open) ==> s.guards[g].Draining? && s.reporters == 0)
      && (SomeGuard(s, Measuring) && !SomeGuard(s', Measuring) ==> s.guards[g].Draining? && s.reporters == 0)
      && (s.guards[g].BumpEpoch? ==> !SomeGuard(s, Open) && !SomeGuard(s, Measuring))
  {
    var s' := NextGuard(s, g, finishing);
    assert Open(s'.guards[g]) ==> SomeGuard(s', Open);
    assert Measuring(s'.guards[g]) ==> SomeGuard(s', Measuring);
    if h :| 0 <= h < |s.guards| && Open(s.guards[h]) {
      assert h != g ==> s'.guards[h] == s.guards[h];
    }
  }

  lemma GuardKeepsCalls(s: Meter, g: nat, finishing: bool)
    requires Exclusive(s) && ReportersCounted(s) && CallsOk(s) && g < |s.guards|
    ensures CallsOk(NextGuard(s, g, finishing))
  {
    var s' := NextGuard(s, g, finishing);
    GuardPhases(s, g, finishing);
    if s.reporters == 0 {
      NobodyHolds(s);
    }
    forall t | 0 <= t < |s'.threads| ensures CallOk(s', s'.threads[t]) {
      assert CallOk(s, s.threads[t]);
      CallSurvives(s, s', s.threads[t]);
    }
  }

  lemma CountersUntouched(s: Meter, g: nat, finishing: bool)
    requires g < |s.guards| && Bumped(s.guards[g])
    ensures var s' := NextGuard(s, g, finishing);
      s'.counters == s.counters && s'.log == s.log && s'.epoch == s.epoch && s'.threads == s.threads
  {
  }

  lemma GuardKeepsCounters(s: Meter, g: nat, finishing: bool)
    requires g < |s.guards| && Bumped(s.guards[g]) && CountersExact(s)
    ensures CountersExact(NextGuard(s, g, finishing)) && NextGuard(s, g, finishing).counters == s.counters
  {
    hide NextGuard, Recorded, SumOf;
    CountersUntouched(s, g, finishing);
  }

  lemma BumpStartsFromZero(s: Meter, g: nat, finishing: bool)
    requires Exclusive(s) && CallsOk(s) && LogOk(s) && g < |s.guards| && s.guards[g].BumpEpoch? && s.counters == ZERO
    ensures CountersExact(NextGuard(s, g, finishing))
  {
    GuardPhases(s, g, finishing);
    NobodyAddsBytes(s);
    RecordedBefore(s.log, s.epoch + 1);
  }

  lemma GuardMoves(s: Meter, g: nat, finishing: bool)
    requires Exclusive(s) && CallsOk(s) && LogOk(s) && g < |s.guards| && GuardOk(s, s.guards[g])
    ensures var s' := NextGuard(s, g, finishing); GuardOk(s', s'.guards[g])
  {
    if s.guards[g].BumpEpoch? {
      BumpStartsFromZero(s, g, finishing);
    } else if Bumped(s.guards[g]) {
      GuardKeepsCounters(s, g, finishing);
    }
  }

  lemma GuardKeepsGuards(s: Meter, g: nat, finishing: bool)
    requires Exclusive(s) && CallsOk(s) && GuardsOk(s) && LogOk(s) && g < |s.guards|
    ensures GuardsOk(NextGuard(s, g, finishing))
  {
    var s' := NextGuard(s, g, finishing);
    assert GuardOk(s, s.guards[g]);
    GuardMoves(s, g, finishing);
    GuardKeepsExclusive(s, g, finishing);
    if s' != s {
      forall h | 0 <= h < |s'.guards| ensures GuardOk(s', s'.guards[h]) {
        assert h != g ==> s'.guards[h].NoGuard?;
      }
    }
  }

  /** After a step of guard `g`, only `g` can be past its increment. */
  lemma BumpedAfterStep(s: Meter, g: nat, finishing: bool)
    requires Exclusive(s) && g < |s.guards| && NextGuard(s, g, finishing) != s
    ensures var s' := NextGuard(s, g, finishing); SomeGuard(s', Bumped) ==> Bumped(s'.guards[g])
    ensures Bumped(s.guards[g]) ==> SomeGuard(s, Bumped)
  {
    var s' := NextGuard(s, g, finishing);
    assert forall h :: 0 <= h < |s.guards| && h != g ==> s'.guards[h] == NoGuard;
  }

  lemma RetiredStatsAreExact(s: Meter, g: nat)
    requires Exclusive(s) && CallsOk(s) && g < |s.guards| && GuardOk(s, s.guards[g])
    requires s.guards[g].Retire? && s.guards[g].stats.Some?
    ensures s.guards[g].stats.value == SaturateStats(Recorded(s.log, s.epoch)) && s.guards[g].epoch == s.epoch
  {
    assert !SomeGuard(s, Measuring);
    NobodyAddsBytes(s);
  }

  lemma RetireKeepsResults(s: Meter, g: nat, finishing: bool)
    requires Exclusive(s) && CallsOk(s) && ResultsOk(s) && g < |s.guards| && GuardOk(s, s.guards[g]) && s.guards[g].Retire?
    ensures ResultsOk(NextGuard(s, g, finishing))
  {
    var s' := NextGuard(s, g, finishing);
    BumpedAfterStep(s, g, finishing);
    if s.guards[g].stats.Some? {
      RetiredStatsAreExact(s, g);
      assert s'.results == s.results + [Measurement(s.epoch, s.guards[g].stats.value)];
    }
  }

  lemma GuardKeepsResults(s: Meter, g: nat, finishing: bool)
    requires Exclusive(s) && CallsOk(s) && ResultsOk(s) && g < |s.guards| && GuardOk(s, s.guards[g])
    ensures ResultsOk(NextGuard(s, g, finishing))
  {
    if s.guards[g].Retire? {
      RetireKeepsResults(s, g, finishing);
    } else if NextGuard(s, g, finishing) != s {
      BumpedAfterStep(s, g, finishing);
    }
  }

  lemma GuardFrame(s: Meter, g: nat, finishing: bool)
    requires g < |s.guards|
    ensures var s' := NextGuard(s, g, finishing);
      s'.threads == s.threads && s'.reporters == s.reporters && s'.log == s.log && s'.epoch >= s.epoch
  {
  }

  lemma GuardKeepsInv(s: Meter, g: nat, finishing: bool)
    requires Inv(s) && g < |s.guards|
    ensures Inv(NextGuard(s, g, finishing))
  {
    GuardKeepsExclusive(s, g, finishing);
    GuardKeepsCalls(s, g, finishing);
    GuardKeepsGuards(s, g, finishing);
    assert GuardOk(s, s.guards[g]);
    GuardKeepsResults(s, g, finishing);
    GuardFrame(s, g, finishing);
  }

  lemma StepKeepsInv(s: Meter, a: Action)
    requires Inv(s) && Applies(s, a)
    ensures Inv(Next(s, a))
  {
    match a
    case ReporterStep(t, outcome) => ReporterKeepsInv(s, t, outcome);
    case GuardStep(g, finishing) => GuardKeepsInv(s, g, finishing);
  }

  // ----- every run -----

  lemma {:induction false} InvOnRun(s: Meter, run: seq<Action>)
    requires Inv(s) && Schedule(s, run)
    ensures Inv(Exec(s, run))
  {
    if run != [] {
      var before := run[..|run| - 1];
      InvOnRun(s, before);
      StepKeepsInv(Exec(s, before), run[|run| - 1]);
    }
  }

  lemma InitialInv(threads: nat, guards: nat)
    requires threads <= U64_MAX
    ensures Inv(Initial(threads, guards))
  {
    SumZero(Holds, Initial(threads, guards).threads);
  }

  lemma {:induction false} InvAlways(threads: nat, guards: nat, run: seq<Action>)
    requires threads <= U64_MAX && Schedule(Initial(threads, guards), run)
    ensures Inv(Exec(Initial(threads, guards), run))
  {
    InitialInv(threads, guards);
    InvOnRun(Initial(threads, guards), run);
  }
}
