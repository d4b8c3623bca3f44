/** Publishing a release crate by crate, with retries and restarts, against a
    registry that may fail, or take a crate and still report failure.

    What the outside world does is chosen arbitrarily in the methods of
    `CratesIo`, within these assumptions: nobody else publishes these crates, a
    lookup that answers answers truthfully, a zero exit code means published,
    and archives are deterministic. */
module Publisher {
  import opened Options
  import opened ReleaseGraph
  import opened RegistryState
  import opened PublishHistory

  const RETRIES: nat := 3

  datatype Packaged = Archive(checksum: nat) | UnpublishedDependency | PackageFailure

  /** How often something outside has failed: a lookup, passing or not, a
      packaging, or a publication that the registry could have taken. */
  datatype Faults = Faults(transient: nat, permanent: nat, packaging: nat, publication: nat) {
    function Total(): nat {
      transient + permanent + packaging + publication
    }

    predicate After(before: Faults) {
      && transient >= before.transient && permanent >= before.permanent
      && packaging >= before.packaging && publication >= before.publication
    }
  }

  class CratesIo {
    const w: Workspace
    var records: map<string, nat>
    ghost var history: seq<Attempt>

    ghost var faults: Faults

    /** The registry holds exactly the first `k` crates, and got them in order. */
    ghost predicate HoldsPrefix(k: nat)
      reads this`records, this`history
    {
      && ValidWorkspace(w) && k <= |w.ordered|
      && records == PrefixRecords(w, k)
      && InOrder(w.ordered, history) && Uploads(history) == w.ordered[..k]
    }

    constructor (w: Workspace)
      requires ValidWorkspace(w)
      ensures this.w == w && history == [] && HoldsPrefix(0)
    {
      this.w := w;
      records := map[];
      history := [];
      faults := Faults(0, 0, 0, 0);
    }

    /** Looks up one version. */
    method VersionRecord(crate: string) returns (lookup: Lookup)
      modifies this`faults
      ensures lookup.Record? ==> lookup == Truth(records, crate)
      ensures faults == match lookup
        case Record(_, _) => old(faults)
        case TransientFailure => old(faults).(transient := old(faults).transient + 1)
        case PermanentFailure => old(faults).(permanent := old(faults).permanent + 1)
    {
      var transient: bool := *;
      var permanent: bool := *;
      if transient {
        faults := faults.(transient := faults.transient + 1);
        return TransientFailure;
      } else if permanent {
        faults := faults.(permanent := faults.permanent + 1);
        return PermanentFailure;
      }
      return Truth(records, crate);
    }

    /** The registry can take the crate. */
    predicate Eligible(crate: string)
      requires crate in w.deps
      reads this`records
    {
      crate !in records && w.deps[crate] <= records.Keys
    }

    /** `cargo publish`: refused if the crate is held or a dependency is not;
        otherwise it may fail, succeed, or succeed and report failure. */
    method CargoPublish(crate: string) returns (ok: bool, retryable: bool)
      requires crate in w.deps && crate in w.plain
      modifies this`records, this`history, this`faults
      ensures exists uploaded: bool ::
        && history == old(history) + [Attempt(crate, uploaded, retryable)]
        && records == (if uploaded then old(records)[crate := w.plain[crate]] else old(records))
        && (uploaded ==> old(Eligible(crate)))
        && (ok ==> uploaded)
        && faults == if old(Eligible(crate)) && !uploaded then old(faults).(publication := old(faults).publication + 1) else old(faults)
    {
      var accepted: bool := *;
      ok, retryable := *, *;
      if !Eligible(crate) || !accepted {
        history := history + [Attempt(crate, false, retryable)];
        if Eligible(crate) {
          faults := faults.(publication := faults.publication + 1);
        }
        return false, retryable;
      }
      history := history + [Attempt(crate, true, retryable)];
      records := records[crate := w.plain[crate]];
    }

    /** What packaging gives unless it fails. */
    function PackagedFrom(crate: string, patch: bool): Packaged
      requires crate in w.deps && crate in w.plain && crate in w.patched
      reads this`records
    {
      if patch then Archive(w.patched[crate])
      else if w.deps[crate] <= records.Keys then Archive(w.plain[crate]) else UnpublishedDependency
    }

    /** `cargo package`, against the registry or with the local packages patched
        in; the former needs the dependencies to be published. */
    method CargoPackage(crate: string, patch: bool) returns (r: Packaged)
      requires crate in w.deps && crate in w.plain && crate in w.patched
      modifies this`faults
      ensures r.PackageFailure? ==> faults == old(faults).(packaging := old(faults).packaging + 1)
      ensures !r.PackageFailure? ==> r == PackagedFrom(crate, patch) && faults == old(faults)
    {
      var fails: bool := *;
      if fails {
        faults := faults.(packaging := faults.packaging + 1);
        return PackageFailure;
      }
      return PackagedFrom(crate, patch);
    }
  }

  function Truth(records: map<string, nat>, crate: string): Lookup {
    if crate in records then Record(true, Some(records[crate])) else Record(false, None)
  }

  /** The checksums of the published crates are those of the registry. */
  predicate Matching(w: Workspace, checksums: map<string, nat>, k: nat) {
    k <= |w.ordered| && HasChecksums(w.ordered, checksums)
    && forall i :: 0 <= i < k ==> w.ordered[i] in w.plain && checksums[w.ordered[i]] == w.plain[w.ordered[i]]
  }

  /** Failing to look something up. */
  predicate LookupFailure(e: PublishError) {
    e == Unclassified || e == TransientlyUnclassified
  }

  /** Some crates are published and going on with them was not asked for. */
  predicate Forbidden(w: Workspace, e: PublishError, k: nat, allow: bool) {
    0 < k <= |w.ordered| && !allow && e == AlreadyPublished(w.ordered[..k])
  }

  // ----- checksums -----

  method PackageChecksum(api: CratesIo, crate: string) returns (r: Option<nat>)
    requires crate in api.w.deps && crate in api.w.plain && crate in api.w.patched
    modifies api`faults
    ensures api.faults == if r.Some? then old(api.faults) else old(api.faults).(packaging := old(api.faults).packaging + 1)
    ensures r.Some? ==> r.value == if api.w.deps[crate] <= api.records.Keys then api.w.plain[crate] else api.w.patched[crate]
  {
    var packaged := api.CargoPackage(crate, false);
    if packaged.UnpublishedDependency? {
      packaged := api.CargoPackage(crate, true);
    }
    return if packaged.Archive? then Some(packaged.checksum) else None;
  }

  /** The checksums of the first `n` crates, as far as `k` those of the registry. */
  predicate Collected(w: Workspace, checksums: map<string, nat>, n: nat, k: nat)
    requires n <= |w.ordered|
  {
    && (forall j :: 0 <= j < n ==> w.ordered[j] in checksums)
    && (forall j :: 0 <= j < n && j < k ==> w.ordered[j] in w.plain && checksums[w.ordered[j]] == w.plain[w.ordered[j]])
  }

  lemma CollectedAdds(w: Workspace, checksums: map<string, nat>, i: nat, k: nat, value: nat)
    requires ValidWorkspace(w) && i < |w.ordered| && Collected(w, checksums, i, k)
    requires i < k ==> value == w.plain[w.ordered[i]]
    ensures Collected(w, checksums[w.ordered[i] := value], i + 1, k)
  {
    assert forall j :: 0 <= j < i ==> w.ordered[j] != w.ordered[i];
  }

  /** The dependencies of a crate within a held prefix are held. */
  lemma HeldCrate(w: Workspace, k: nat, i: nat)
    requires ValidWorkspace(w) && i < k <= |w.ordered|
    ensures w.deps[w.ordered[i]] <= PrefixRecords(w, k).Keys
  {
    assert w.ordered[..k][i] == w.ordered[i];
    HeldCratesHaveTheirDependencies(w, k);
  }

  /** The local checksums at the start of a run.  Crates already published come
      out as the registry has them: their dependencies are published, too. */
  method PackageChecksums(api: CratesIo, ghost k: nat) returns (r: Result<map<string, nat>, PublishError>)
    requires api.HoldsPrefix(k)
    modifies api`faults
    ensures r.Ok? ==> Matching(api.w, r.value, k) && api.faults == old(api.faults)
    ensures r.Err? ==> r.error.PackagingFailed? && api.faults == old(api.faults).(packaging := old(api.faults).packaging + 1)
  {
    hide Collected, PrefixRecords, InOrder, Uploads;
    var ordered := api.w.ordered;
    var checksums: map<string, nat> := map[];
    NothingCollected(api.w, k);
    for i := 0 to |ordered|
      invariant Collected(api.w, checksums, i, k) && api.faults == old(api.faults)
    {
      var checksum := PackageChecksum(api, ordered[i]);
      if checksum == None {
        return Err(PackagingFailed(ordered[i]));
      }
      if i < k {
        HeldCrate(api.w, k, i);
      }
      CollectedAdds(api.w, checksums, i, k, checksum.value);
      checksums := checksums[ordered[i] := checksum.value];
    }
    CollectedIsMatching(api.w, checksums, k);
    return Ok(checksums);
  }

  lemma NothingCollected(w: Workspace, k: nat)
    ensures Collected(w, map[], 0, k)
  {
  }

  lemma CollectedIsMatching(w: Workspace, checksums: map<string, nat>, k: nat)
    requires k <= |w.ordered| && Collected(w, checksums, |w.ordered|, k)
    ensures Matching(w, checksums, k)
  {
  }

  // ----- the registry state -----

  ghost predicate Truthful(w: Workspace, records: map<string, nat>, lookups: seq<Lookup>) {
    |lookups| == |w.ordered| && forall i :: 0 <= i < |lookups| && lookups[i].Record? ==> lookups[i] == Truth(records, w.ordered[i])
  }

  /** Truthful answers about a registry that holds a prefix. */
  lemma TruthIsAccepted(w: Workspace, k: nat, lookups: seq<Lookup>, checksums: map<string, nat>, allow: bool)
    requires ValidWorkspace(w) && k <= |w.ordered| && Truthful(w, PrefixRecords(w, k), lookups)
    ensures forall i: nat :: Accepts(w.ordered, lookups, checksums, allow, i) ==> i == k
    ensures Matching(w, checksums, k) && AllRecords(lookups) ==> Accepts(w.ordered, lookups, checksums, true, k)
    ensures Matching(w, checksums, k) && AllRecords(lookups) && (k == 0 || allow) ==> Accepts(w.ordered, lookups, checksums, allow, k)
  {
    forall i | 0 <= i < |lookups| && lookups[i].Record? ensures lookups[i].published <==> i < k {
      if i < k {
        assert w.ordered[..k][i] == w.ordered[i];
      }
    }
    if AllRecords(lookups) {
      assert PublishedPrefix(lookups, k);
      forall i: nat | Accepts(w.ordered, lookups, checksums, allow, i) ensures i == k {
        PrefixIsUnique(lookups, i, k);
      }
      if Matching(w, checksums, k) {
        forall i | 0 <= i < |lookups| ensures Consistent(lookups[i], checksums[w.ordered[i]]) {
          assert lookups[i] == Truth(PrefixRecords(w, k), w.ordered[i]);
        }
      }
    }
  }

  /** One look at every crate: over a registry that holds `k` crates it returns
      `k`, unless a lookup fails or going on was not asked for. */
  method ValidateRegistryState(api: CratesIo, checksums: map<string, nat>, allow: bool, ghost k: nat) returns (r: Result<nat, PublishError>)
    requires api.HoldsPrefix(k)
    modifies api`faults
    ensures LookupsOnly(old(api.faults), api.faults)
    ensures r.Ok? ==> r.value == k && (k == 0 || allow) && api.faults == old(api.faults)
    ensures Matching(api.w, checksums, k) && r.Err? && api.faults == old(api.faults) ==> Forbidden(api.w, r.error, k, allow)
    ensures Matching(api.w, checksums, k) && r.Err? && api.faults != old(api.faults) ==>
      r.error == if api.faults.permanent > old(api.faults).permanent then Unclassified else TransientlyUnclassified
  {
    var ordered := api.w.ordered;
    var lookups: seq<Lookup> := [];
    for i := 0 to |ordered|
      invariant |lookups| == i && LookupsOnly(old(api.faults), api.faults)
      invariant forall j :: 0 <= j < i && lookups[j].Record? ==> lookups[j] == Truth(api.records, ordered[j])
      invariant api.faults.permanent > old(api.faults).permanent <==> PermanentFailure in lookups
      invariant api.faults.transient > old(api.faults).transient <==> TransientFailure in lookups
    {
      var lookup := api.VersionRecord(ordered[i]);
      lookups := lookups + [lookup];
    }
    AllRecordsUnlessFailed(lookups);
    TruthIsAccepted(api.w, k, lookups, checksums, allow);
    r := ClassifyRegistryState(ordered, lookups, checksums, allow);
  }

  /** Only lookups have failed since. */
  predicate LookupsOnly(before: Faults, now: Faults) {
    now.After(before) && now.packaging == before.packaging && now.publication == before.publication
  }

  lemma AllRecordsUnlessFailed(lookups: seq<Lookup>)
    ensures AllRecords(lookups) <==> PermanentFailure !in lookups && TransientFailure !in lookups
  {
  }

  /** The same with up to three retries of failures that may pass; those known to
      be transient have to persist through all of them. */
  method ValidateRegistryStateWithRetry(api: CratesIo, checksums: map<string, nat>, allow: bool, ghost k: nat) returns (r: Result<nat, PublishError>)
    requires api.HoldsPrefix(k)
    modifies api`faults
    ensures LookupsOnly(old(api.faults), api.faults)
    ensures r.Ok? ==> r.value == k && (k == 0 || allow)
    ensures Matching(api.w, checksums, k) && r.Err? ==>
      (LookupFailure(r.error) && api.faults != old(api.faults)) || Forbidden(api.w, r.error, k, allow)
    ensures Matching(api.w, checksums, k) && (k == 0 || allow) && r.Err? ==>
      api.faults.permanent > old(api.faults).permanent || api.faults.transient >= old(api.faults).transient + 4
  {
    var attempt := 0;
    while true
      invariant attempt <= RETRIES && LookupsOnly(old(api.faults), api.faults)
      invariant Matching(api.w, checksums, k) && (k == 0 || allow) ==>
        api.faults.permanent > old(api.faults).permanent || api.faults.transient >= old(api.faults).transient + attempt
      decreases RETRIES - attempt
    {
      r := ValidateRegistryState(api, checksums, allow, k);
      if r.Ok? {
        return;
      }
      var textIsRetryable: bool := *;
      var retryable := r.error == TransientlyUnclassified || textIsRetryable;
      if attempt >= RETRIES || !retryable {
        return;
      }
      attempt := attempt + 1;
    }
  }

  // ----- publishing -----

  /** One `cargo publish` of the next crate. */
  method TryPublish(api: CratesIo, index: nat) returns (ok: bool, retryable: bool, ghost reached: nat)
    requires api.HoldsPrefix(index) && index < |api.w.ordered|
    modifies api`records, api`history, api`faults
    ensures api.HoldsPrefix(reached) && index <= reached <= index + 1 && (ok ==> reached == index + 1)
    ensures api.history == old(api.history) + [Attempt(api.w.ordered[index], reached > index, retryable)]
    ensures api.faults == if reached > index then old(api.faults) else old(api.faults).(publication := old(api.faults).publication + 1)
  {
    var crate := api.w.ordered[index];
    NextIsNotHeld(api.w, index);
    ok, retryable := api.CargoPublish(crate);
    ghost var uploaded :| api.history == old(api.history) + [Attempt(crate, uploaded, retryable)]
      && api.records == (if uploaded then old(api.records)[crate := api.w.plain[crate]] else old(api.records))
      && (ok ==> uploaded)
      && api.faults == if uploaded then old(api.faults) else old(api.faults).(publication := old(api.faults).publication + 1);
    AttemptNext(api.w.ordered, old(api.history), index, uploaded, retryable);
    PrefixRecordsGrow(api.w, index);
    reached := if uploaded then index + 1 else index;
  }

  /** Four failed attempts for one crate. */
  predicate FourFailures(attempts: seq<Attempt>, m: nat) {
    m + 4 <= |attempts|
    && forall i :: m <= i < m + 4 ==> !attempts[i].uploaded && attempts[i].crate == attempts[m].crate
  }

  /** What a publication gets over: no failure that is there to stay, at most
      three lookups that fail for the moment, and at most three retryable failures
      in publishing a crate. */
  ghost predicate Benign(before: Faults, now: Faults, attempts: seq<Attempt>) {
    && now.permanent == before.permanent && now.packaging == before.packaging && now.transient <= before.transient + 3
    && (forall m :: 0 <= m < |attempts| && !attempts[m].uploaded ==> attempts[m].retryable)
    && (forall m: nat :: !FourFailures(attempts, m))
  }

  lemma FailuresShift(first: seq<Attempt>, second: seq<Attempt>, m: nat)
    ensures FourFailures(first + second, |first| + m) <==> FourFailures(second, m)
  {
    var all := first + second;
    if m + 4 <= |second| {
      assert forall i :: m <= i < m + 4 ==> all[|first| + i] == second[i];
      assert forall i :: |first| + m <= i < |first| + m + 4 ==> all[i] == second[i - |first|];
    }
  }

  /** What is benign as a whole is so in its later part. */
  lemma BenignLater(before: Faults, mid: Faults, now: Faults, h0: seq<Attempt>, h1: seq<Attempt>, h2: seq<Attempt>)
    requires mid.After(before) && now.After(mid) && h0 <= h1 <= h2
    requires Benign(before, now, h2[|h0|..])
    ensures Benign(mid, now, h2[|h1|..])
  {
    hide FourFailures;
    var first, second, all := h1[|h0|..], h2[|h1|..], h2[|h0|..];
    assert all == first + second;
    forall m | 0 <= m < |second| && !second[m].uploaded ensures second[m].retryable {
      assert all[|first| + m] == second[m];
    }
    forall m: nat ensures !FourFailures(second, m) {
      FailuresShift(first, second, m);
      assert !FourFailures(all, |first| + m);
    }
  }

  /** What may stop a run once its start was accepted. */
  predicate Stopping(e: PublishError) {
    LookupFailure(e) || e.PackagingFailed? || e.PublicationFailed?
  }

  /** The attempts made since `before` are for `crate`; all but the last have
      failed, retryably. */
  ghost predicate Retried(before: seq<Attempt>, now: seq<Attempt>, crate: string) {
    && before <= now && (forall m :: |before| <= m < |now| ==> now[m].crate == crate)
    && forall m :: |before| <= m < |now| - 1 ==> !now[m].uploaded && now[m].retryable
  }

  lemma RetriedOnce(before: seq<Attempt>, now: seq<Attempt>, crate: string, x: Attempt)
    requires before <= now && x.crate == crate
    requires forall m :: |before| <= m < |now| ==> now[m].crate == crate && !now[m].uploaded && now[m].retryable
    ensures Retried(before, now + [x], crate)
  {
  }

  /** Giving up after the fourth attempt, or one that failed for good. */
  lemma GivingUpIsNotBenign(before: Faults, now: Faults, attempts: seq<Attempt>, crate: string)
    requires attempts != [] && forall m :: 0 <= m < |attempts| ==> !attempts[m].uploaded && attempts[m].crate == crate
    requires |attempts| == 4 || !attempts[|attempts| - 1].retryable
    ensures !Benign(before, now, attempts)
  {
    if |attempts| == 4 {
      assert FourFailures(attempts, 0);
    }
  }

  /** Publishes the crate at `index`.  However it ends, the registry holds the
      crates before it, or those and the crate.  A failed attempt is followed by
      another exactly as long as its output is retryable and there have been fewer
      than four, and what ends it badly is not benign. */
  method PublishCrate(api: CratesIo, checksums: map<string, nat>, index: nat)
    returns (error: Option<PublishError>, updated: map<string, nat>, ghost reached: nat)
    requires api.HoldsPrefix(index) && index < |api.w.ordered| && Matching(api.w, checksums, index)
    modifies api`records, api`history, api`faults
    ensures api.HoldsPrefix(reached) && index <= reached <= index + 1 && api.faults.After(old(api.faults))
    ensures error == None ==> reached == index + 1 && Matching(api.w, updated, index + 1)
    ensures error.Some? ==> Stopping(error.value) && api.faults.Total() > old(api.faults).Total()
    ensures Retried(old(api.history), api.history, api.w.ordered[index]) && |api.history| <= |old(api.history)| + 4
    ensures error.Some? ==> !Benign(old(api.faults), api.faults, api.history[|old(api.history)|..])
  {
    hide PrefixRecords, InOrder, Uploads, Benign;
    var crate := api.w.ordered[index];
    updated := checksums;
    reached := index;
    var attempt := 0;
    while true
      invariant attempt <= RETRIES && reached == index && api.HoldsPrefix(index) && Matching(api.w, updated, index)
      invariant api.faults.After(old(api.faults))
      invariant old(api.history) <= api.history && |api.history| == |old(api.history)| + attempt
      invariant forall m :: |old(api.history)| <= m < |api.history| ==>
        api.history[m].crate == crate && !api.history[m].uploaded && api.history[m].retryable
      decreases RETRIES - attempt
    {
      ghost var was, before := api.history, api.faults;
      var ok: bool, outputIsRetryable: bool;
      ok, outputIsRetryable, reached := TryPublish(api, index);
      RetriedOnce(old(api.history), was, crate, Attempt(crate, reached > index, outputIsRetryable));
      DependenciesHeld(api.w, index, reached);
      var packaged := api.CargoPackage(crate, false);
      if !packaged.Archive? {
        FaultIsNotBenign(old(api.faults), api.faults, api.history[|old(api.history)|..]);
        return Some(PackagingFailed(crate)), updated, reached;
      }
      updated := updated[crate := packaged.checksum];
      if ok {
        return None, updated, reached;
      }
      var prefix := ValidateRegistryStateWithRetry(api, updated, true, reached);
      if prefix.Err? {
        FaultIsNotBenign(old(api.faults), api.faults, api.history[|old(api.history)|..]);
        return Some(prefix.error), updated, reached;
      }
      if prefix.value == index + 1 {
        return None, updated, reached;
      }
      if prefix.value != index {
        return Some(PrefixAdvanced(crate)), updated, reached;
      }
      if attempt >= RETRIES || !outputIsRetryable {
        GivingUpIsNotBenign(old(api.faults), api.faults, api.history[|old(api.history)|..], crate);
        return Some(PublicationFailed(crate)), updated, reached;
      }
      attempt := attempt + 1;
    }
  }

  lemma FaultIsNotBenign(before: Faults, now: Faults, attempts: seq<Attempt>)
    requires now.permanent > before.permanent || now.packaging > before.packaging || now.transient >= before.transient + 4
    ensures !Benign(before, now, attempts)
  {
  }

  /** Before and after its publication a crate finds its dependencies held. */
  lemma DependenciesHeld(w: Workspace, index: nat, reached: nat)
    requires ValidWorkspace(w) && index < |w.ordered| && index <= reached <= |w.ordered|
    ensures w.deps[w.ordered[index]] <= PrefixRecords(w, reached).Keys
  {
    NextIsNotHeld(w, index);
    assert w.ordered[..index] == w.ordered[..reached][..index];
  }

  /** No crate has had more than four attempts, and none from `index` on any. */
  ghost predicate BoundedAttempts(ordered: seq<string>, index: nat, history: seq<Attempt>) {
    && (forall crate :: AttemptsFor(history, crate) <= 4)
    && (forall i :: index <= i < |ordered| ==> AttemptsFor(history, ordered[i]) == 0)
  }

  lemma AttemptsStayBounded(ordered: seq<string>, index: nat, before: seq<Attempt>, now: seq<Attempt>, later: seq<Attempt>)
    requires Distinct(ordered) && index < |ordered| && before <= now
    requires BoundedAttempts(ordered, index, now[|before|..])
    requires Retried(now, later, ordered[index]) && |later| <= |now| + 4
    ensures before <= later && BoundedAttempts(ordered, index + 1, later[|before|..])
  {
    var more := later[|now|..];
    assert later[|before|..] == now[|before|..] + more;
    forall crate ensures AttemptsFor(later[|before|..], crate) == AttemptsFor(now[|before|..], crate) + (if crate == ordered[index] then |more| else 0) {
      AttemptsAdd(now[|before|..], more, crate);
      AttemptsAt(more, ordered[index], crate);
    }
  }

  /** Publishes what is left, from the validated prefix on.  An abort, of which
      something outside is the cause, leaves a prefix; a normal return leaves the
      whole manifest published. */
  method PublishRemaining(api: CratesIo, checksums: map<string, nat>, startIndex: int)
    returns (error: Option<PublishError>, ghost reached: int)
    requires 0 <= startIndex <= |api.w.ordered| ==> api.HoldsPrefix(startIndex) && Matching(api.w, checksums, startIndex)
    modifies api`records, api`history, api`faults
    ensures api.faults.After(old(api.faults)) && old(api.history) <= api.history
    ensures !(0 <= startIndex <= |api.w.ordered|) ==>
      error == Some(StartOutsideManifest) && api.records == old(api.records) && api.history == old(api.history)
    ensures 0 <= startIndex <= |api.w.ordered| ==> startIndex <= reached && api.HoldsPrefix(reached)
    ensures 0 <= startIndex <= |api.w.ordered| ==>
      if error == None then reached == |api.w.ordered|
      else Stopping(error.value) && api.faults.Total() > old(api.faults).Total()
           && !Benign(old(api.faults), api.faults, api.history[|old(api.history)|..])
    ensures forall crate :: AttemptsFor(api.history[|old(api.history)|..], crate) <= 4
  {
    reached := startIndex;
    if !(0 <= startIndex <= |api.w.ordered|) {
      return Some(StartOutsideManifest), reached;
    }
    hide Benign;
    var sums := checksums;
    for index := startIndex to |api.w.ordered|
      invariant reached == index && api.HoldsPrefix(index) && Matching(api.w, sums, index)
      invariant old(api.history) <= api.history && api.faults.After(old(api.faults))
      invariant BoundedAttempts(api.w.ordered, index, api.history[|old(api.history)|..])
    {
      ghost var before, faults := api.history, api.faults;
      error, sums, reached := PublishCrate(api, sums, index);
      AttemptsStayBounded(api.w.ordered, index, old(api.history), before, api.history);
      if error.Some? {
        if Benign(old(api.faults), api.faults, api.history[|old(api.history)|..]) {
          BenignLater(old(api.faults), faults, api.faults, old(api.history), before, api.history);
        }
        return;
      }
    }
    error := None;
  }

  // ----- runs -----

  /** `allow` is missing when the setting is malformed. */
  datatype Settings = Settings(token: bool, allow: Option<bool>)

  datatype Outcome = Completed | NoToken | MalformedSetting | Failed(error: PublishError)

  /** The run is allowed to go on behind `k` published crates. */
  predicate Permitted(settings: Settings, k: nat) {
    settings.token && settings.allow.Some? && (k == 0 || settings.allow.value)
  }

  /** A run over a registry that holds `k` crates ends this way; `faulty` says
      whether something outside has failed. */
  predicate RunEnds(w: Workspace, settings: Settings, k: nat, faulty: bool, outcome: Outcome, reached: nat) {
    && k <= reached <= |w.ordered|
    && (reached > k || outcome == Completed ==> Permitted(settings, k))
    && (Permitted(settings, k) && !faulty ==> outcome == Completed)
    && match outcome
       case Completed => reached == |w.ordered|
       case NoToken => !settings.token
       case MalformedSetting => settings.token && settings.allow == None
       case Failed(e) => (Stopping(e) && faulty) || (settings.allow.Some? && reached == k && Forbidden(w, e, k, settings.allow.value))
  }

  /** One run of the publisher on a validated workspace.  It resumes exactly
      behind the crates already published, whatever state earlier runs have left,
      and publishes the rest if it is permitted to and nothing outside fails. */
  method Run(api: CratesIo, settings: Settings, ghost k: nat) returns (outcome: Outcome, ghost reached: nat)
    requires api.HoldsPrefix(k)
    modifies api`records, api`history, api`faults
    ensures api.faults.After(old(api.faults))
    ensures api.HoldsPrefix(reached) && RunEnds(api.w, settings, k, api.faults.Total() > old(api.faults).Total(), outcome, reached)
    ensures old(api.history) <= api.history
    ensures Permitted(settings, k) && Benign(old(api.faults), api.faults, api.history[|old(api.history)|..]) ==> outcome == Completed
    ensures api.history != old(api.history) ==> Permitted(settings, k)
    ensures forall crate :: AttemptsFor(api.history[|old(api.history)|..], crate) <= 4
  {
    hide Matching, HasChecksums, Consistent, FourFailures;
    reached := k;
    var checksums := PackageChecksums(api, k);
    if checksums.Err? {
      return Failed(checksums.error), reached;
    }
    if !settings.token {
      return NoToken, reached;
    }
    if settings.allow == None {
      return MalformedSetting, reached;
    }
    var prefix := ValidateRegistryStateWithRetry(api, checksums.value, settings.allow.value, k);
    if prefix.Err? {
      return Failed(prefix.error), reached;
    }
    var error: Option<PublishError>;
    ghost var faults := api.faults;
    error, reached := PublishRemaining(api, checksums.value, prefix.value);
    if Benign(old(api.faults), api.faults, api.history[|old(api.history)|..]) {
      BenignLater(old(api.faults), faults, api.faults, old(api.history), old(api.history), api.history);
    }
    return if error == None then Completed else Failed(error.value), reached;
  }

  /** How many of the runs may go on whatever is published. */
  function AlwaysPermitted(runs: seq<Settings>): nat {
    if runs == [] then 0
    else
      var last := runs[|runs| - 1];
      AlwaysPermitted(runs[..|runs| - 1]) + if last == Settings(true, Some(true)) then 1 else 0
  }

  /** Any sequence of runs, aborted and restarted at will.  With the lemmas about
      orderly histories: the registry always holds a dependency-closed prefix of
      the manifest, no crate is ever uploaded twice or attempted while held, and
      after a completed run everything is published.  So it is once more runs have
      had permission than things outside have failed, since one of them then went
      without a failure. */
  method RunRepeatedly(api: CratesIo, runs: seq<Settings>) returns (outcomes: seq<Outcome>, ghost reached: nat)
    requires api.HoldsPrefix(0)
    modifies api`records, api`history, api`faults
    ensures api.HoldsPrefix(reached) && |outcomes| == |runs| && api.faults.After(old(api.faults))
    ensures Completed in outcomes ==> reached == |api.w.ordered|
    ensures AlwaysPermitted(runs) > api.faults.Total() - old(api.faults).Total() ==> reached == |api.w.ordered|
    ensures forall m :: 0 <= m < |api.history| ==> api.history[m].crate !in Uploads(api.history[..m])
    ensures forall c :: c in api.records ==> c in api.w.deps && api.w.deps[c] <= api.records.Keys
  {
    outcomes := [];
    reached := 0;
    for i := 0 to |runs|
      invariant |outcomes| == i && api.HoldsPrefix(reached) && api.faults.After(old(api.faults))
      invariant Completed in outcomes ==> reached == |api.w.ordered|
      invariant AlwaysPermitted(runs[..i]) > api.faults.Total() - old(api.faults).Total() ==> reached == |api.w.ordered|
    {
      assert runs[..i + 1][..i] == runs[..i];
      var outcome: Outcome;
      outcome, reached := Run(api, runs[i], reached);
      outcomes := outcomes + [outcome];
    }
    assert runs[..|runs|] == runs;
    HeldCratesHaveTheirDependencies(api.w, reached);
    forall m | 0 <= m < |api.history| ensures api.history[m].crate !in Uploads(api.history[..m]) {
      NeverAttemptsHeldCrate(api.w, api.history, m);
    }
  }
}
