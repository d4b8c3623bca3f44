/** Run by run, which recorded events are late, and that no event would be if
    STATE were re-read before EPOCH. */
module AllocProbeLateness {
  import opened Options
  import opened AllocProbe
  import opened AllocProbeInvariant
  import opened AllocProbeMeasurement
  import opened AllocProbeEpoch

  // ----- the two re-reads behind an event -----

  predicate StepsCall(run: seq<Action>, k: nat, t: nat)
    requires k < |run|
  {
    run[k].ReporterStep? && run[k].thread == t
  }

  predicate Quiet(run: seq<Action>, t: nat, from: nat, to: nat)
    requires to <= |run|
  {
    forall k :: from <= k < to ==> !StepsCall(run, k, t)
  }

  /** Step `a` re-reads EPOCH as `seen` for the counted call of thread `t`. */
  ghost predicate ReReads(s: Meter, run: seq<Action>, t: nat, a: nat, observed: nat, seen: nat)
    requires Schedule(s, run)
  {
    && a < |run| && t < |s.threads| && StepsCall(run, a, t)
    && Exec(s, run[..a]).threads[t] == Counted(observed) && Exec(s, run[..a]).epoch == seen
  }

  /** Step `a` finds the observed epoch still current, and step `b`, the next of
      the thread, finds STATE active and so admits the call into `epoch`. */
  ghost predicate Admits(s: Meter, run: seq<Action>, t: nat, a: nat, b: nat, observed: nat, epoch: nat)
    requires Schedule(s, run)
  {
    && ReReads(s, run, t, a, observed, observed) && a < b < |run| && Quiet(run, t, a + 1, b) && StepsCall(run, b, t)
    && Exec(s, run[..b]).state == Active && Exec(s, run[..b]).epoch == epoch
  }

  /** Step `c` of thread `t` records the event of log entry `i`. */
  ghost predicate Records(s: Meter, run: seq<Action>, t: nat, c: nat, i: nat, entry: Entry)
    requires Schedule(s, run)
  {
    && c < |run| && t < |s.threads| && StepsCall(run, c, t)
    && Exec(s, run[..c]).threads[t] == Admitted(entry.observed, entry.epoch)
    && |Exec(s, run[..c]).log| == i && Exec(s, run[..c + 1]).log == Exec(s, run[..c]).log + [entry]
  }

  lemma OwnStep(s: Meter, x: Action, t: nat)
    requires Applies(s, x) && t < |s.threads| && !(x.ReporterStep? && x.thread == t)
    ensures Next(s, x).threads[t] == s.threads[t]
  {
  }

  lemma LastOf(s: Meter, run: seq<Action>)
    requires Schedule(s, run) && run != []
    ensures Schedule(s, run[..|run| - 1]) && Applies(Exec(s, run[..|run| - 1]), run[|run| - 1])
    ensures Exec(s, run) == Next(Exec(s, run[..|run| - 1]), run[|run| - 1])
  {
  }

  /** A thread that has moved stands where its last step left it. */
  lemma {:induction false} LastStep(s: Meter, run: seq<Action>, t: nat) returns (k: nat)
    requires Schedule(s, run) && t < |s.threads| && Exec(s, run).threads[t] != s.threads[t]
    ensures k < |run| && StepsCall(run, k, t) && Quiet(run, t, k + 1, |run|)
    ensures Schedule(s, run[..k]) && Applies(Exec(s, run[..k]), run[k])
    ensures Exec(s, run).threads[t] == Next(Exec(s, run[..k]), run[k]).threads[t]
  {
    assert run != [];
    var n := |run| - 1;
    LastOf(s, run);
    hide Exec, Next;
    if StepsCall(run, n, t) {
      k := n;
    } else {
      OwnStep(Exec(s, run[..n]), run[n], t);
      k := LastStep(s, run[..n], t);
      QuietExtends(run, t, k + 1);
      assert run[..n][..k] == run[..k];
    }
  }

  lemma QuietExtends(run: seq<Action>, t: nat, from: nat)
    requires run != [] && Quiet(run[..|run| - 1], t, from, |run| - 1) && !StepsCall(run, |run| - 1, t)
    ensures Quiet(run, t, from, |run|)
  {
    forall k | from <= k < |run| - 1 ensures !StepsCall(run, k, t) {
      assert !StepsCall(run[..|run| - 1], k, t);
    }
  }

  lemma QuietPrefix(run: seq<Action>, t: nat, from: nat, to: nat)
    requires to <= |run| && Quiet(run[..to], t, from, to)
    ensures Quiet(run, t, from, to)
  {
    forall k | from <= k < to ensures !StepsCall(run, k, t) {
      assert !StepsCall(run[..to], k, t);
    }
  }

  lemma BeforeAdmitted(s: Meter, x: Action, observed: nat, epoch: nat)
    requires Applies(s, x) && x.ReporterStep? && Next(s, x).threads[x.thread] == Admitted(observed, epoch)
    ensures s.threads[x.thread] == Rechecked(observed, observed) && s.state == Active && s.epoch == epoch
  {
  }

  lemma BeforeRechecked(s: Meter, x: Action, observed: nat, seen: nat)
    requires Applies(s, x) && x.ReporterStep? && Next(s, x).threads[x.thread] == Rechecked(observed, seen)
    ensures s.threads[x.thread] == Counted(observed) && s.epoch == seen
  {
  }

  /** An admitted call has made its two re-reads in its last two steps. */
  lemma AdmittedByTwoSteps(s: Meter, run: seq<Action>, t: nat, observed: nat, epoch: nat) returns (a: nat, b: nat)
    requires Schedule(s, run) && t < |s.threads| && s.threads[t].Outside?
    requires Exec(s, run).threads[t] == Admitted(observed, epoch)
    ensures Admits(s, run, t, a, b, observed, epoch) && Quiet(run, t, b + 1, |run|)
  {
    hide Exec, Next;
    b := LastStep(s, run, t);
    BeforeAdmitted(Exec(s, run[..b]), run[b], observed, epoch);
    a := LastStep(s, run[..b], t);
    assert run[..b][..a] == run[..a];
    BeforeRechecked(Exec(s, run[..a]), run[a], observed, observed);
    QuietPrefix(run, t, a + 1, b);
  }

  lemma LogStep(s: Meter, x: Action)
    requires Applies(s, x)
    ensures var s' := Next(s, x);
      || s'.log == s.log
      || (x.ReporterStep? && s.threads[x.thread].Admitted?
          && exists event :: s'.log == s.log + [Entry(s.threads[x.thread].observed, s.threads[x.thread].epoch, event)])
  {
    if x.ReporterStep? && s.threads[x.thread].Admitted? && x.outcome.Some? {
      assert Next(s, x).log == s.log + [Entry(s.threads[x.thread].observed, s.threads[x.thread].epoch, x.outcome.value)];
    }
  }

  lemma RecordsNow(s: Meter, run: seq<Action>)
    requires Schedule(s, run) && run != [] && Exec(s, run).log != Exec(s, run[..|run| - 1]).log
    ensures var log := Exec(s, run).log;
      run[|run| - 1].ReporterStep? && log != [] && Records(s, run, run[|run| - 1].thread, |run| - 1, |log| - 1, log[|log| - 1])
  {
    LastOf(s, run);
    hide Exec, Next;
    LogStep(Exec(s, run[..|run| - 1]), run[|run| - 1]);
    assert run[..|run| - 1 + 1] == run;
  }

  lemma RecordsStay(s: Meter, run: seq<Action>, n: nat, t: nat, c: nat, i: nat, entry: Entry)
    requires Schedule(s, run) && n <= |run| && Records(s, run[..n], t, c, i, entry)
    ensures Records(s, run, t, c, i, entry)
  {
    hide Exec;
    assert run[..n][..c] == run[..c] && run[..n][..c + 1] == run[..c + 1];
  }

  lemma LogGrows(s: Meter, run: seq<Action>)
    requires Schedule(s, run) && run != []
    ensures Exec(s, run[..|run| - 1]).log <= Exec(s, run).log && |Exec(s, run).log| <= |Exec(s, run[..|run| - 1]).log| + 1
  {
    LastOf(s, run);
    hide Exec, Next;
    LogStep(Exec(s, run[..|run| - 1]), run[|run| - 1]);
  }

  /** Every log entry has been recorded by one step. */
  lemma {:induction false} EntryIsRecorded(s: Meter, run: seq<Action>, i: nat) returns (t: nat, c: nat)
    requires Schedule(s, run) && |s.log| <= i < |Exec(s, run).log|
    ensures Records(s, run, t, c, i, Exec(s, run).log[i])
  {
    assert run != [];
    var n := |run| - 1;
    LogGrows(s, run);
    hide Exec, Records;
    if i < |Exec(s, run[..n]).log| {
      t, c := EntryIsRecorded(s, run[..n], i);
      RecordsStay(s, run, n, t, c, i, Exec(s, run).log[i]);
    } else {
      RecordsNow(s, run);
      t, c := run[n].thread, n;
    }
  }

  // ----- late exactly if nothing was open at the re-read -----

  lemma NoneOpenStep(s: Meter, x: Action)
    requires Applies(s, x)
    ensures Next(s, x).epoch >= s.epoch
    ensures !SomeGuard(s, Open) && Next(s, x).epoch == s.epoch ==> !SomeGuard(Next(s, x), Open)
  {
    if x.GuardStep? {
      var s' := NextGuard(s, x.guard, x.finishing);
      assert forall h :: 0 <= h < |s.guards| && h != x.guard ==> s'.guards[h] == s.guards[h];
      assert Open(s'.guards[x.guard]) ==> Open(s.guards[x.guard]) || s'.epoch > s.epoch;
    }
  }

  /** The epoch never goes back, and while it stays nothing opens. */
  lemma {:induction false} NoneOpenStays(s: Meter, run: seq<Action>)
    requires Schedule(s, run)
    ensures Exec(s, run).epoch >= s.epoch
    ensures !SomeGuard(s, Open) && Exec(s, run).epoch == s.epoch ==> !SomeGuard(Exec(s, run), Open)
  {
    if run != [] {
      hide Next, SomeGuard;
      var before := run[..|run| - 1];
      NoneOpenStays(s, before);
      NoneOpenStep(Exec(s, before), run[|run| - 1]);
    }
  }

  lemma ActiveIsRunning(s: Meter)
    requires Inv(s) && s.state == Active
    ensures exists g :: 0 <= g < |s.guards| && s.guards[g].Running?
    ensures SomeGuard(s, Open) && SomeGuard(s, Opening)
  {
    var g :| 0 <= g < |s.guards| && !s.guards[g].NoGuard?;
    assert Open(s.guards[g]) && Opening(s.guards[g]);
  }

  /** From the state right behind the re-read to the one right before the next
      step of the call. */
  lemma LateFromReRead(s: Meter, t: nat, run: seq<Action>)
    requires Inv(s) && Schedule(s, run) && t < |s.threads| && s.threads[t] == Rechecked(s.epoch, s.epoch)
    requires Quiet(run, t, 0, |run|) && Inv(Exec(s, run)) && Exec(s, run).state == Active
    ensures Exec(s, run).epoch != s.epoch <==> !SomeGuard(s, Open)
  {
    hide Exec, Inv;
    ActiveIsRunning(Exec(s, run));
    if SomeGuard(s, Open) {
      assert forall i :: 0 <= i < |run| ==> StepsCall(run, i, t) == (run[i].ReporterStep? && run[i].thread == t);
      OutsideWindowStays(s, t, run);
    } else {
      NoneOpenStays(s, run);
    }
  }

  lemma Segment(s: Meter, run: seq<Action>, a: nat, b: nat)
    requires Schedule(s, run) && a < b <= |run|
    ensures Schedule(Next(Exec(s, run[..a]), run[a]), run[a + 1..b])
    ensures Exec(s, run[..b]) == Exec(Next(Exec(s, run[..a]), run[a]), run[a + 1..b])
  {
    hide Exec, Next;
    assert run[..a + 1] == run[..a] + [run[a]] && run[..b] == run[..a + 1] + run[a + 1..b];
    ExecSnoc(s, run[..a], run[a]);
    ExecConcat(s, run[..a + 1], run[a + 1..b]);
  }

  lemma QuietSegment(run: seq<Action>, t: nat, from: nat, to: nat)
    requires from <= to <= |run| && Quiet(run, t, from, to)
    ensures Quiet(run[from..to], t, 0, |run[from..to]|)
  {
    forall k | 0 <= k < to - from ensures !StepsCall(run[from..to], k, t) {
      assert !StepsCall(run, from + k, t);
    }
  }

  /** Any admission, in any run from a state that keeps the invariant, is late
      exactly if nothing was open at its re-read of EPOCH. */
  lemma AdmissionIsLateExactly(s: Meter, run: seq<Action>, t: nat, a: nat, b: nat, observed: nat, epoch: nat)
    requires Inv(s) && Schedule(s, run) && Admits(s, run, t, a, b, observed, epoch)
    ensures exists g :: 0 <= g < |s.guards| && Exec(s, run[..b]).guards[g].Running?
    ensures epoch != observed <==> !SomeGuard(Exec(s, run[..a]), Open)
  {
    hide Exec, Inv, SomeGuard, StepsCall, Next;
    InvOnRun(s, run[..a]);
    InvOnRun(s, run[..b]);
    ActiveIsRunning(Exec(s, run[..b]));
    Segment(s, run, a, b);
    StepIsCall(run, a, t);
    ReReadStep(Exec(s, run[..a]), run[a]);
    QuietSegment(run, t, a + 1, b);
    LateFromReRead(Next(Exec(s, run[..a]), run[a]), t, run[a + 1..b]);
  }

  lemma StepIsCall(run: seq<Action>, k: nat, t: nat)
    requires k < |run| && StepsCall(run, k, t)
    ensures run[k].ReporterStep? && run[k].thread == t
  {
  }

  /** Every event is recorded by a step of a call, whose two steps before that
      are a re-read of EPOCH that found the observed epoch current and a re-read
      of STATE while a measurement ran.  It is late, recorded in another epoch
      than the observed one, exactly if no measurement was between its increment
      and the end of its drain at that re-read of EPOCH. */
  lemma EntryIsLateExactly(threads: nat, guards: nat, run: seq<Action>, i: nat) returns (t: nat, a: nat, b: nat, c: nat)
    requires threads <= U64_MAX && Schedule(Initial(threads, guards), run)
    requires i < |Exec(Initial(threads, guards), run).log|
    ensures var s, entry := Initial(threads, guards), Exec(Initial(threads, guards), run).log[i];
      && Records(s, run, t, c, i, entry)
      && Admits(s, run, t, a, b, entry.observed, entry.epoch) && b < c && Quiet(run, t, b + 1, c)
      && (exists g :: 0 <= g < guards && Exec(s, run[..b]).guards[g].Running?)
      && (entry.epoch != entry.observed <==> !SomeGuard(Exec(s, run[..a]), Open))
  {
    var s := Initial(threads, guards);
    InitialInv(threads, guards);
    hide Exec, Inv, SomeGuard;
    var entry := Exec(s, run).log[i];
    t, c := EntryIsRecorded(s, run, i);
    a, b := AdmittedByTwoSteps(s, run[..c], t, entry.observed, entry.epoch);
    AdmitsWithin(s, run, c, t, a, b, entry.observed, entry.epoch);
    QuietPrefix(run, t, b + 1, c);
    AdmissionIsLateExactly(s, run, t, a, b, entry.observed, entry.epoch);
  }

  lemma AdmitsWithin(s: Meter, run: seq<Action>, n: nat, t: nat, a: nat, b: nat, observed: nat, epoch: nat)
    requires Schedule(s, run) && n <= |run| && Admits(s, run[..n], t, a, b, observed, epoch)
    ensures b < n && Admits(s, run, t, a, b, observed, epoch)
  {
    hide Exec;
    assert run[..n][..a] == run[..a] && run[..n][..b] == run[..b];
    assert Quiet(run[..b], t, a + 1, b) by {
      forall k | a + 1 <= k < b ensures !StepsCall(run[..b], k, t) {
        assert !StepsCall(run[..n], k, t);
      }
    }
    QuietPrefix(run, t, a + 1, b);
  }

  lemma ReReadStep(s: Meter, x: Action)
    requires Inv(s) && Applies(s, x) && x.ReporterStep? && s.threads[x.thread] == Counted(s.epoch)
    ensures var s' := Next(s, x);
      && Inv(s') && s'.threads[x.thread] == Rechecked(s.epoch, s.epoch) && s'.epoch == s.epoch
      && (SomeGuard(s', Open) <==> SomeGuard(s, Open))
  {
    StepKeepsInv(s, x);
  }

  // ----- STATE first -----

  /** A meter like the real one, but for the order of the two re-reads: STATE
      first and EPOCH last, which is the epoch the call is admitted into. */
  function NextStateFirst(s: Meter, x: Action): Meter
    requires Applies(s, x)
  {
    if x.GuardStep? then NextGuard(s, x.guard, x.finishing)
    else
      match s.threads[x.thread]
      case Counted(o) => CallAt(s, x.thread, if s.state == Active then Rechecked(o, s.epoch) else Rejected)
      case Rechecked(o, _) => CallAt(s, x.thread, if s.epoch == o then Admitted(o, s.epoch) else Rejected)
      case _ => NextReporter(s, x.thread, x.outcome)
  }

  function ExecStateFirst(s: Meter, run: seq<Action>): (s': Meter)
    requires Schedule(s, run)
    ensures |s'.threads| == |s.threads| && |s'.guards| == |s.guards|
  {
    if run == [] then s else NextStateFirst(ExecStateFirst(s, run[..|run| - 1]), run[|run| - 1])
  }

  /** A call past its re-read of STATE keeps the measurement of that moment open. */
  ghost predicate Confined(s: Meter, pc: ReporterPc) {
    match pc
    case Rechecked(_, r) => r == s.epoch && SomeGuard(s, Measuring)
    case Admitted(o, e) => o == e == s.epoch && SomeGuard(s, Measuring)
    case AddingBytes(o, e, _) => o == e == s.epoch && SomeGuard(s, Measuring)
    case Leaving(o, e) => o == e == s.epoch && SomeGuard(s, Measuring)
    case _ => true
  }

  ghost predicate ConfinedInv(s: Meter) {
    && Inv(s)
    && (forall t :: 0 <= t < |s.threads| ==> Confined(s, s.threads[t]))
    && (forall i :: 0 <= i < |s.log| ==> s.log[i].observed == s.log[i].epoch)
  }

  /** Moving a call without counting or recording anything. */
  lemma MoveKeepsInv(s: Meter, t: nat, pc: ReporterPc)
    requires Inv(s) && t < |s.threads| && CallOk(s, pc)
    requires Holds(pc) == Holds(s.threads[t]) && PendingBytes(pc) == PendingBytes(s.threads[t])
    ensures Inv(CallAt(s, t, pc))
  {
    var s' := CallAt(s, t, pc);
    SumUpdate(Holds, s.threads, t, pc);
    SumUpdate(PendingBytes, s.threads, t, pc);
    hide SumOf, Recorded;
    forall u | 0 <= u < |s'.threads| ensures CallOk(s', s'.threads[u]) {
      assert CallOk(s, s.threads[u]);
      CallOkFrame(s, s', s'.threads[u]);
    }
    forall g | 0 <= g < |s'.guards| ensures GuardOk(s', s'.guards[g]) {
      assert GuardOk(s, s.guards[g]);
      ReporterKeepsGuard(s, s', s.guards[g]);
    }
    assert ResultsOk(s');
  }

  lemma ConfinedFrame(s: Meter, s': Meter, pc: ReporterPc)
    requires Confined(s, pc) && s'.epoch == s.epoch && s'.guards == s.guards
    ensures Confined(s', pc)
  {
  }

  lemma CallStaysConfined(s: Meter, t: nat, outcome: Option<Event>)
    requires ConfinedInv(s) && t < |s.threads|
    ensures var s' := NextStateFirst(s, ReporterStep(t, outcome));
      Inv(s') && s'.epoch == s.epoch && s'.guards == s.guards && Confined(s, s'.threads[t])
  {
    assert CallOk(s, s.threads[t]) && Confined(s, s.threads[t]);
    var s' := NextStateFirst(s, ReporterStep(t, outcome));
    hide GuardsOk, ResultsOk, LogOk, ReportersCounted;
    match s.threads[t]
    case Counted(o) =>
      if s.state == Active {
        MeasuringWhenActive(s);
      }
      MoveKeepsInv(s, t, s'.threads[t]);
    case Rechecked(_, _) => MoveKeepsInv(s, t, s'.threads[t]);
    case _ => ReporterKeepsInv(s, t, outcome);
  }

  lemma MeasuringWhenActive(s: Meter)
    requires Inv(s) && s.state == Active
    ensures SomeGuard(s, Measuring)
  {
    ActiveIsRunning(s);
    var g :| 0 <= g < |s.guards| && s.guards[g].Running?;
    assert Measuring(s.guards[g]);
  }

  lemma ReporterKeepsConfinement(s: Meter, t: nat, outcome: Option<Event>)
    requires ConfinedInv(s) && t < |s.threads|
    ensures ConfinedInv(NextStateFirst(s, ReporterStep(t, outcome)))
  {
    var s' := NextStateFirst(s, ReporterStep(t, outcome));
    CallStaysConfined(s, t, outcome);
    assert Confined(s, s.threads[t]);
    hide Inv, Confined;
    forall u | 0 <= u < |s'.threads| ensures Confined(s', s'.threads[u]) {
      assert u != t ==> s'.threads[u] == s.threads[u];
      ConfinedFrame(s, s', s'.threads[u]);
    }
    LogStaysConfined(s, t, outcome);
  }

  lemma LogStaysConfined(s: Meter, t: nat, outcome: Option<Event>)
    requires t < |s.threads| && Confined(s, s.threads[t]) && forall i :: 0 <= i < |s.log| ==> s.log[i].observed == s.log[i].epoch
    ensures var log := NextStateFirst(s, ReporterStep(t, outcome)).log; forall i :: 0 <= i < |log| ==> log[i].observed == log[i].epoch
  {
  }

  /** A confined call holds a unit, so that no drain ends under it. */
  lemma GuardKeepsConfinement(s: Meter, g: nat, finishing: bool)
    requires ConfinedInv(s) && g < |s.guards|
    ensures ConfinedInv(NextGuard(s, g, finishing))
  {
    var s' := NextGuard(s, g, finishing);
    GuardKeepsInv(s, g, finishing);
    GuardPhases(s, g, finishing);
    GuardFrame(s, g, finishing);
    if s.reporters == 0 {
      NobodyHolds(s);
    }
    hide Inv, NextGuard, SomeGuard;
    forall t | 0 <= t < |s'.threads| ensures Confined(s', s'.threads[t]) {
      assert Confined(s, s.threads[t]);
    }
  }

  lemma {:induction false} ConfinedAlways(threads: nat, guards: nat, run: seq<Action>)
    requires threads <= U64_MAX && Schedule(Initial(threads, guards), run)
    ensures ConfinedInv(ExecStateFirst(Initial(threads, guards), run))
  {
    if run == [] {
      InitialInv(threads, guards);
    } else {
      hide ConfinedInv;
      var s, x := ExecStateFirst(Initial(threads, guards), run[..|run| - 1]), run[|run| - 1];
      ConfinedAlways(threads, guards, run[..|run| - 1]);
      if x.GuardStep? {
        GuardKeepsConfinement(s, x.guard, x.finishing);
      } else {
        ReporterKeepsConfinement(s, x.thread, x.outcome);
      }
    }
  }

  /** With STATE re-read first the documented confinement holds: every event is
      recorded under the epoch its call observed, and every snapshot is exact. */
  lemma StateFirstIsConfined(threads: nat, guards: nat, run: seq<Action>)
    requires threads <= U64_MAX && Schedule(Initial(threads, guards), run)
    ensures var s := ExecStateFirst(Initial(threads, guards), run);
      && (forall i :: 0 <= i < |s.log| ==> s.log[i].observed == s.log[i].epoch)
      && (forall i :: 0 <= i < |s.results| ==> s.results[i].stats == CappedStats(Totals(s.log, s.results[i].epoch)))
  {
    ConfinedAlways(threads, guards, run);
    hide ExecStateFirst, Recorded, Totals, SaturateStats, CappedStats;
    var s := ExecStateFirst(Initial(threads, guards), run);
    forall i | 0 <= i < |s.results| ensures s.results[i].stats == CappedStats(Totals(s.log, s.results[i].epoch)) {
      RecordedIsExact(s.log, s.results[i].epoch);
    }
  }
}
