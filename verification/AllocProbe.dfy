/** The process-wide allocation meter: one measurement guard at a time, any
    number of allocator threads, and seven shared atomics.

    Every atomic operation is one step and the schedule is arbitrary.  A
    `ReporterPc` says how far an allocator call has come, a `GuardPc` how far a
    measurement has.  `log` and `results` are history: nothing reads them. */
module AllocProbe {
  import opened Options

  const U64_MAX: nat := 0xFFFF_FFFF_FFFF_FFFF

  datatype MeterState = Idle | Arming | Active

  datatype AllocationStats =
    AllocationStats(allocations: nat, reallocations: nat, deallocations: nat, requestedBytes: nat)

  const ZERO := AllocationStats(0, 0, 0, 0)

  datatype Event = Allocation(size: nat) | Reallocation(newSize: nat) | Deallocation

  /** An allocator call.  `observed` is the epoch read first, `epoch` the value
      of EPOCH at the step that admitted the call. */
  datatype ReporterPc =
    | Outside
    | EpochRead(observed: nat)
    | StateRead(observed: nat)
    | Counted(observed: nat)
    | Rechecked(observed: nat, rechecked: nat)
    | Rejected
    | Admitted(observed: nat, epoch: nat)
    | AddingBytes(observed: nat, epoch: nat, bytes: nat)
    | Leaving(observed: nat, epoch: nat)

  /** A measuring thread.  `epoch` is the value this guard's own increment left. */
  datatype GuardPc =
    | NoGuard
    | ResetAllocations
    | ResetReallocations
    | ResetDeallocations
    | ResetBytes
    | BumpEpoch
    | Publish(epoch: nat)
    | Running(epoch: nat)
    | Draining(epoch: nat, finishing: bool)
    | ReadAllocations(epoch: nat)
    | ReadReallocations(epoch: nat, allocations: nat)
    | ReadDeallocations(epoch: nat, allocations: nat, reallocations: nat)
    | ReadBytes(epoch: nat, allocations: nat, reallocations: nat, deallocations: nat)
    | Retire(epoch: nat, stats: Option<AllocationStats>)

  datatype Entry = Entry(observed: nat, epoch: nat, event: Event)

  datatype Measurement = Measurement(epoch: nat, stats: AllocationStats)

  datatype Meter = Meter(
    state: MeterState, epoch: nat, reporters: nat, counters: AllocationStats,
    threads: seq<ReporterPc>, guards: seq<GuardPc>, log: seq<Entry>, results: seq<Measurement>)

  /** One step of allocator thread `thread` or measuring thread `guard`.
      `outcome` is what an admitted call has to record (`None` for a null
      allocation); `finishing` tells `finish` from an unwinding drop. */
  datatype Action = ReporterStep(thread: nat, outcome: Option<Event>) | GuardStep(guard: nat, finishing: bool)

  // ----- the steps -----

  function Saturate(n: nat): nat {
    if n > U64_MAX then U64_MAX else n
  }

  function SizeAsU64(size: nat): nat {
    Saturate(size)
  }

  function FetchAdd(n: nat): nat {
    (n + 1) % (U64_MAX + 1)
  }

  function FetchSub(n: nat): nat {
    (n + U64_MAX) % (U64_MAX + 1)
  }

  /** The first counter update of a record call. */
  function CountCall(c: AllocationStats, event: Event): AllocationStats {
    match event
    case Allocation(_) => c.(allocations := Saturate(c.allocations + 1))
    case Reallocation(_) => c.(reallocations := Saturate(c.reallocations + 1))
    case Deallocation => c.(deallocations := Saturate(c.deallocations + 1))
  }

  function BytesOf(event: Event): nat {
    match event
    case Allocation(size) => SizeAsU64(size)
    case Reallocation(newSize) => SizeAsU64(newSize)
    case Deallocation => 0
  }

  predicate Applies(s: Meter, a: Action) {
    match a
    case ReporterStep(t, _) => t < |s.threads|
    case GuardStep(g, _) => g < |s.guards|
  }

  function CallAt(s: Meter, t: nat, pc: ReporterPc): Meter
    requires t < |s.threads|
  {
    s.(threads := s.threads[t := pc])
  }

  function GuardAt(s: Meter, g: nat, pc: GuardPc): Meter
    requires g < |s.guards|
  {
    s.(guards := s.guards[g := pc])
  }

  function NextReporter(s: Meter, t: nat, outcome: Option<Event>): Meter
    requires t < |s.threads|
  {
    match s.threads[t]
    case Outside => CallAt(s, t, EpochRead(s.epoch))
    case EpochRead(o) => CallAt(s, t, if s.state == Active then StateRead(o) else Outside)
    case StateRead(o) => CallAt(s, t, Counted(o)).(reporters := FetchAdd(s.reporters))
    case Counted(o) => CallAt(s, t, Rechecked(o, s.epoch))
    case Rechecked(o, r) => CallAt(s, t, if s.state == Active && r == o then Admitted(o, s.epoch) else Rejected)
    case Rejected => CallAt(s, t, Outside).(reporters := FetchSub(s.reporters))
    case Admitted(o, e) =>
      (match outcome
       case None => CallAt(s, t, Leaving(o, e))
       case Some(event) =>
         CallAt(s, t, if event.Deallocation? then Leaving(o, e) else AddingBytes(o, e, BytesOf(event)))
         .(counters := CountCall(s.counters, event), log := s.log + [Entry(o, e, event)]))
    case AddingBytes(o, e, bytes) =>
      CallAt(s, t, Leaving(o, e)).(counters := s.counters.(requestedBytes := Saturate(s.counters.requestedBytes + bytes)))
    case Leaving(_, _) => CallAt(s, t, Outside).(reporters := FetchSub(s.reporters))
  }

  function NextGuard(s: Meter, g: nat, finishing: bool): Meter
    requires g < |s.guards|
  {
    match s.guards[g]
    // A failed exchange panics: nothing changes.
    case NoGuard => if s.state == Idle then GuardAt(s, g, ResetAllocations).(state := Arming) else s
    case ResetAllocations => GuardAt(s, g, ResetReallocations).(counters := s.counters.(allocations := 0))
    case ResetReallocations => GuardAt(s, g, ResetDeallocations).(counters := s.counters.(reallocations := 0))
    case ResetDeallocations => GuardAt(s, g, ResetBytes).(counters := s.counters.(deallocations := 0))
    case ResetBytes => GuardAt(s, g, BumpEpoch).(counters := s.counters.(requestedBytes := 0))
    case BumpEpoch => GuardAt(s, g, Publish(s.epoch + 1)).(epoch := s.epoch + 1)
    case Publish(e) => GuardAt(s, g, Running(e)).(state := Active)
    case Running(e) => GuardAt(s, g, Draining(e, finishing)).(state := Arming)
    case Draining(e, f) =>
      if s.reporters != 0 then s
      else GuardAt(s, g, if f then ReadAllocations(e) else Retire(e, None))
    case ReadAllocations(e) => GuardAt(s, g, ReadReallocations(e, s.counters.allocations))
    case ReadReallocations(e, a) => GuardAt(s, g, ReadDeallocations(e, a, s.counters.reallocations))
    case ReadDeallocations(e, a, r) => GuardAt(s, g, ReadBytes(e, a, r, s.counters.deallocations))
    case ReadBytes(e, a, r, d) => GuardAt(s, g, Retire(e, Some(AllocationStats(a, r, d, s.counters.requestedBytes))))
    case Retire(e, stats) =>
      GuardAt(s, g, NoGuard).(state := Idle, results := s.results + if stats.Some? then [Measurement(e, stats.value)] else [])
  }

  function Next(s: Meter, a: Action): Meter
    requires Applies(s, a)
  {
    match a
    case ReporterStep(t, outcome) => NextReporter(s, t, outcome)
    case GuardStep(g, finishing) => NextGuard(s, g, finishing)
  }

  /** The meter before anything has run. */
  function Initial(threads: nat, guards: nat): Meter {
    Meter(Idle, 0, 0, ZERO, seq(threads, i => Outside), seq(guards, i => NoGuard), [], [])
  }

  /** A schedule that names only threads that exist. */
  predicate Schedule(s: Meter, run: seq<Action>) {
    forall i :: 0 <= i < |run| ==> Applies(s, run[i])
  }

  function Exec(s: Meter, run: seq<Action>): (s': Meter)
    requires Schedule(s, run)
    ensures |s'.threads| == |s.threads| && |s'.guards| == |s.guards|
  {
    if run == [] then s
    else
      var before := Exec(s, run[..|run| - 1]);
      Next(before, run[|run| - 1])
  }

  // ----- sums over the threads -----

  function SumOf(f: ReporterPc -> nat, threads: seq<ReporterPc>): nat {
    if threads == [] then 0 else SumOf(f, threads[..|threads| - 1]) + f(threads[|threads| - 1])
  }

  lemma {:induction false} SumUpdate(f: ReporterPc -> nat, threads: seq<ReporterPc>, t: nat, pc: ReporterPc)
    requires t < |threads|
    ensures SumOf(f, threads[t := pc]) == SumOf(f, threads) - f(threads[t]) + f(pc)
    ensures SumOf(f, threads) >= f(threads[t])
  {
    var n := |threads| - 1;
    if t == n {
      assert threads[t := pc][..n] == threads[..n];
    } else {
      assert threads[t := pc][..n] == threads[..n][t := pc];
      SumUpdate(f, threads[..n], t, pc);
    }
  }

  lemma {:induction false} SumZero(f: ReporterPc -> nat, threads: seq<ReporterPc>)
    ensures SumOf(f, threads) == 0 <==> forall t :: 0 <= t < |threads| ==> f(threads[t]) == 0
  {
    if threads != [] {
      var n := |threads| - 1;
      SumZero(f, threads[..n]);
      if SumOf(f, threads[..n]) == 0 {
        assert forall t :: 0 <= t < n ==> threads[..n][t] == threads[t];
      }
    }
  }

  lemma {:induction false} SumBounded(f: ReporterPc -> nat, threads: seq<ReporterPc>, bound: nat)
    requires forall pc: ReporterPc :: f(pc) <= bound
    ensures SumOf(f, threads) <= bound * |threads|
  {
    if threads != [] {
      SumBounded(f, threads[..|threads| - 1], bound);
    }
  }

  /** Whether the call holds a unit of ACTIVE_REPORTERS. */
  function Holds(pc: ReporterPc): nat {
    if pc.Outside? || pc.EpochRead? || pc.StateRead? then 0 else 1
  }

  function PendingBytes(pc: ReporterPc): nat {
    if pc.AddingBytes? then pc.bytes else 0
  }

  /** Bounds the steps the call can still take while STATE is not ACTIVE
      before it is done with ACTIVE_REPORTERS. */
  function StepsLeft(pc: ReporterPc): nat {
    match pc
    case Outside => 0
    case EpochRead(_) => 0
    case StateRead(_) => 6
    case Counted(_) => 5
    case Rechecked(_, _) => 4
    case Admitted(_, _) => 3
    case AddingBytes(_, _, _) => 2
    case Leaving(_, _) => 1
    case Rejected => 1
  }
}
