/** The seven shared atomics as one object, and the code of the two kinds of
    threads as methods that perform one atomic operation on it and move on.
    Each method is proved to be a step of the meter of module `AllocProbe`. */
module AllocProbeAtomics {
  import opened Options
  import opened AllocProbe
  import opened AllocProbeInvariant
  import opened AllocProbeMeasurement

  class SharedMeter {
    var state: MeterState
    var epoch: nat
    var activeReporters: nat
    var allocations: nat
    var reallocations: nat
    var deallocations: nat
    var requestedBytes: nat

    constructor ()
      ensures Represents(Initial(0, 0))
    {
      state, epoch, activeReporters := Idle, 0, 0;
      allocations, reallocations, deallocations, requestedBytes := 0, 0, 0, 0;
    }

    /** The fields hold what the abstract meter's atomics hold. */
    ghost predicate Represents(s: Meter)
      reads this
    {
      && state == s.state && epoch == s.epoch && activeReporters == s.reporters
      && AllocationStats(allocations, reallocations, deallocations, requestedBytes) == s.counters
    }

    method SaturatingIncrement(event: Event)
      modifies this`allocations, this`reallocations, this`deallocations
      ensures AllocationStats(allocations, reallocations, deallocations, requestedBytes)
           == CountCall(old(AllocationStats(allocations, reallocations, deallocations, requestedBytes)), event)
    {
      match event {
        case Allocation(_) => allocations := if allocations + 1 > U64_MAX then U64_MAX else allocations + 1;
        case Reallocation(_) => reallocations := if reallocations + 1 > U64_MAX then U64_MAX else reallocations + 1;
        case Deallocation => deallocations := if deallocations + 1 > U64_MAX then U64_MAX else deallocations + 1;
      }
    }

    /** One step of an allocator call that stands at `pc`. */
    method AdvanceCall(pc: ReporterPc, outcome: Option<Event>, ghost s: Meter, ghost t: nat) returns (next: ReporterPc)
      requires Represents(s) && t < |s.threads| && s.threads[t] == pc
      modifies this
      ensures Represents(NextReporter(s, t, outcome))
      ensures next == NextReporter(s, t, outcome).threads[t]
    {
      match pc {
        case Outside =>
          next := EpochRead(epoch);
        case EpochRead(observed) =>
          next := if state == Active then StateRead(observed) else Outside;
        case StateRead(observed) =>
          activeReporters := (activeReporters + 1) % (U64_MAX + 1);
          next := Counted(observed);
        case Counted(observed) =>
          next := Rechecked(observed, epoch);
        case Rechecked(observed, rechecked) =>
          next := if state == Active && rechecked == observed then Admitted(observed, epoch) else Rejected;
        case Rejected =>
          activeReporters := (activeReporters + U64_MAX) % (U64_MAX + 1);
          next := Outside;
        case Admitted(observed, admitted) =>
          next := Leaving(observed, admitted);
          if outcome.Some? {
            SaturatingIncrement(outcome.value);
            if !outcome.value.Deallocation? {
              next := AddingBytes(observed, admitted, BytesOf(outcome.value));
            }
          }
        case AddingBytes(observed, admitted, bytes) =>
          requestedBytes := if requestedBytes + bytes > U64_MAX then U64_MAX else requestedBytes + bytes;
          next := Leaving(observed, admitted);
        case Leaving(_, _) =>
          activeReporters := (activeReporters + U64_MAX) % (U64_MAX + 1);
          next := Outside;
      }
    }

    /** One step of a measuring thread that stands at `pc`; `done` is the
        snapshot handed to the caller when the measurement ends. */
    method AdvanceGuard(pc: GuardPc, finishing: bool, ghost s: Meter, ghost g: nat)
      returns (next: GuardPc, done: Option<AllocationStats>)
      requires Represents(s) && g < |s.guards| && s.guards[g] == pc
      modifies this
      ensures var s' := NextGuard(s, g, finishing);
        && Represents(s') && next == s'.guards[g]
        && (done.Some? ==> pc.Retire? && s'.results == s.results + [Measurement(pc.epoch, done.value)])
        && (done.None? ==> s'.results == s.results)
    {
      next, done := pc, None;
      match pc {
        case NoGuard =>
          if state == Idle {
            state := Arming;
            next := ResetAllocations;
          }
        case ResetAllocations =>
          allocations := 0;
          next := ResetReallocations;
        case ResetReallocations =>
          reallocations := 0;
          next := ResetDeallocations;
        case ResetDeallocations =>
          deallocations := 0;
          next := ResetBytes;
        case ResetBytes =>
          requestedBytes := 0;
          next := BumpEpoch;
        case BumpEpoch =>
          epoch := epoch + 1;
          next := Publish(epoch);
        case Publish(e) =>
          state := Active;
          next := Running(e);
        case Running(e) =>
          state := Arming;
          next := Draining(e, finishing);
        case Draining(e, f) =>
          if activeReporters == 0 {
            next := if f then ReadAllocations(e) else Retire(e, None);
          }
        case ReadAllocations(e) =>
          next := ReadReallocations(e, allocations);
        case ReadReallocations(e, a) =>
          next := ReadDeallocations(e, a, reallocations);
        case ReadDeallocations(e, a, r) =>
          next := ReadBytes(e, a, r, deallocations);
        case ReadBytes(e, a, r, d) =>
          next := Retire(e, Some(AllocationStats(a, r, d, requestedBytes)));
        case Retire(_, stats) =>
          state := Idle;
          next, done := NoGuard, stats;
      }
    }

    /** A whole schedule: each step advances one thread over the shared fields.
        `done` are the snapshots handed out on the way. */
    method Drive(run: seq<Action>, calls: seq<ReporterPc>, measuring: seq<GuardPc>, ghost s: Meter)
      returns (calls': seq<ReporterPc>, measuring': seq<GuardPc>, done: seq<Measurement>)
      requires Represents(s) && Schedule(s, run) && calls == s.threads && measuring == s.guards
      modifies this
      ensures Represents(Exec(s, run))
      ensures calls' == Exec(s, run).threads && measuring' == Exec(s, run).guards
      ensures Exec(s, run).results == s.results + done
    {
      hide Exec, NextReporter, NextGuard, Schedule;
      calls', measuring', done := calls, measuring, [];
      StartsAt(s, run);
      for i := 0 to |run|
        invariant Schedule(s, run[..i]) && Represents(Exec(s, run[..i]))
        invariant calls' == Exec(s, run[..i]).threads && measuring' == Exec(s, run[..i]).guards
        invariant Exec(s, run[..i]).results == s.results + done
      {
        ghost var now := Exec(s, run[..i]);
        StepsTo(s, run, i);
        OneThreadMoves(now, run[i]);
        match run[i] {
          case ReporterStep(t, outcome) =>
            var next := AdvanceCall(calls'[t], outcome, now, t);
            calls' := calls'[t := next];
          case GuardStep(g, finishing) =>
            var pc := measuring'[g];
            var next, stats := AdvanceGuard(pc, finishing, now, g);
            measuring' := measuring'[g := next];
            if stats.Some? {
              assert s.results + (done + [Measurement(pc.epoch, stats.value)]) == s.results + done + [Measurement(pc.epoch, stats.value)];
              done := done + [Measurement(pc.epoch, stats.value)];
            }
        }
      }
      assert run[..|run|] == run;
    }
  }

  lemma StartsAt(s: Meter, run: seq<Action>)
    requires Schedule(s, run)
    ensures Schedule(s, run[..0]) && Exec(s, run[..0]) == s && s.results + [] == s.results
  {
  }

  lemma StepsTo(s: Meter, run: seq<Action>, i: nat)
    requires Schedule(s, run) && i < |run|
    ensures Schedule(s, run[..i]) && Schedule(s, run[..i + 1]) && Applies(Exec(s, run[..i]), run[i])
    ensures Exec(s, run[..i + 1]) == Next(Exec(s, run[..i]), run[i])
  {
    assert run[..i + 1] == run[..i] + [run[i]];
    ExecSnoc(s, run[..i], run[i]);
  }

  lemma OneThreadMoves(s: Meter, a: Action)
    requires Applies(s, a)
    ensures var s' := Next(s, a);
      match a
      case ReporterStep(t, outcome) =>
        s' == NextReporter(s, t, outcome) && s'.threads == s.threads[t := s'.threads[t]] && s'.guards == s.guards && s'.results == s.results
      case GuardStep(g, finishing) =>
        s' == NextGuard(s, g, finishing) && s'.guards == s.guards[g := s'.guards[g]] && s'.threads == s.threads
  {
  }

  /** A fresh meter driven through any schedule hands out only exact snapshots. */
  method DriveFresh(run: seq<Action>, threads: nat, guards: nat) returns (done: seq<Measurement>)
    requires threads <= U64_MAX && Schedule(Initial(threads, guards), run)
    ensures done == Exec(Initial(threads, guards), run).results
    ensures var log := Exec(Initial(threads, guards), run).log;
      && (forall i :: 0 <= i < |done| ==> done[i].stats == CappedStats(Totals(log, done[i].epoch)))
      && (forall i, j :: 0 <= i < j < |done| ==> done[i].epoch < done[j].epoch)
  {
    hide Exec, Totals;
    ghost var s := Initial(threads, guards);
    SnapshotsAreExact(threads, guards, run);
    var meter := new SharedMeter();
    var calls, measuring;
    calls, measuring, done := meter.Drive(run, seq(threads, i => Outside), seq(guards, i => NoGuard), s);
    assert Exec(s, run).results == done;
  }
}
