/** Reading the state of a release off the registry: how many crates of the
    ordered manifest are already published, and when the answer is refused. */
module RegistryState {
  import opened Options
  import opened ReleaseGraph

  /** What one lookup of a crate's target version gives. */
  datatype Lookup = Record(published: bool, checksum: Option<nat>) | TransientFailure | PermanentFailure

  datatype PublishError =
    | ChecksumsMissing | Unclassified | TransientlyUnclassified
    | UnexpectedChecksum(crate: string) | ChecksumMismatch(crate: string)
    | NotAPrefix(crates: seq<string>) | AlreadyPublished(crates: seq<string>)
    | StartOutsideManifest | PackagingFailed(crate: string) | PrefixAdvanced(crate: string) | PublicationFailed(crate: string)

  /** A published record carries the local checksum, an unpublished one none. */
  predicate Consistent(lookup: Lookup, checksum: nat) {
    lookup.Record? && lookup.checksum == if lookup.published then Some(checksum) else None
  }

  predicate HasChecksums(ordered: seq<string>, checksums: map<string, nat>) {
    forall i :: 0 <= i < |ordered| ==> ordered[i] in checksums
  }

  predicate AllRecords(lookups: seq<Lookup>) {
    forall i :: 0 <= i < |lookups| ==> lookups[i].Record?
  }

  predicate AllConsistent(ordered: seq<string>, lookups: seq<Lookup>, checksums: map<string, nat>, count: nat)
    requires count <= |lookups| == |ordered| && HasChecksums(ordered, checksums)
  {
    forall i :: 0 <= i < count ==> Consistent(lookups[i], checksums[ordered[i]])
  }

  /** Exactly the first `k` of the records are published. */
  predicate PublishedPrefix(lookups: seq<Lookup>, k: nat)
    requires AllRecords(lookups)
  {
    k <= |lookups| && forall i :: 0 <= i < |lookups| ==> (lookups[i].published <==> i < k)
  }

  /** The states in which a release with `k` published crates may go on. */
  predicate Accepts(ordered: seq<string>, lookups: seq<Lookup>, checksums: map<string, nat>, allowPublished: bool, k: nat)
    requires |lookups| == |ordered|
  {
    && HasChecksums(ordered, checksums) && AllRecords(lookups)
    && AllConsistent(ordered, lookups, checksums, |lookups|)
    && PublishedPrefix(lookups, k) && (k == 0 || allowPublished)
  }

  /** The published crates behind an unpublished one, among the first `count`. */
  function Stranded(ordered: seq<string>, lookups: seq<Lookup>, count: nat): seq<string>
    requires count <= |lookups| == |ordered| && AllRecords(lookups)
  {
    if count == 0 then []
    else
      var rest := Stranded(ordered, lookups, count - 1);
      if lookups[count - 1].published && (exists i :: 0 <= i < count - 1 && !lookups[i].published)
      then rest + [ordered[count - 1]] else rest
  }

  lemma {:induction false} NoneStranded(ordered: seq<string>, lookups: seq<Lookup>, count: nat)
    requires count <= |lookups| == |ordered| && AllRecords(lookups)
    ensures Stranded(ordered, lookups, count) == []
      <==> forall i, j :: 0 <= i < j < count && lookups[j].published ==> lookups[i].published
  {
    if count > 0 {
      NoneStranded(ordered, lookups, count - 1);
    }
  }

  /** The first inconsistent record belongs to `crate`, and is one of the
      published (or unpublished) ones. */
  predicate FirstBad(ordered: seq<string>, lookups: seq<Lookup>, checksums: map<string, nat>, crate: string, published: bool)
    requires |lookups| == |ordered|
  {
    && HasChecksums(ordered, checksums)
    && exists i ::
         && 0 <= i < |ordered| && ordered[i] == crate
         && AllConsistent(ordered, lookups, checksums, i) && !Consistent(lookups[i], checksums[crate])
         && lookups[i].Record? && lookups[i].published == published
  }

  /** `validate_registry_state`, once every crate has been looked up. */
  method ClassifyRegistryState(ordered: seq<string>, lookups: seq<Lookup>, checksums: map<string, nat>, allowPublished: bool)
    returns (r: Result<nat, PublishError>)
    requires |lookups| == |ordered|
    ensures forall k: nat :: r == Ok(k) <==> Accepts(ordered, lookups, checksums, allowPublished, k)
    ensures forall k: nat :: r.Err? && Accepts(ordered, lookups, checksums, true, k) ==> r == Err(AlreadyPublished(ordered[..k]))
    ensures r == Err(ChecksumsMissing) <==> !HasChecksums(ordered, checksums)
    ensures r == Err(Unclassified) <==> HasChecksums(ordered, checksums) && PermanentFailure in lookups
    ensures r == Err(TransientlyUnclassified)
      <==> HasChecksums(ordered, checksums) && PermanentFailure !in lookups && TransientFailure in lookups
    ensures r.Err? && r.error.ChecksumMismatch? ==> AllRecords(lookups) && FirstBad(ordered, lookups, checksums, r.error.crate, true)
    ensures r.Err? && r.error.UnexpectedChecksum? ==> AllRecords(lookups) && FirstBad(ordered, lookups, checksums, r.error.crate, false)
    ensures r.Err? && r.error.NotAPrefix? ==>
      && HasChecksums(ordered, checksums) && AllRecords(lookups) && AllConsistent(ordered, lookups, checksums, |lookups|)
      && r.error.crates == Stranded(ordered, lookups, |lookups|) != []
    ensures r.Err? && r.error.AlreadyPublished? ==> !allowPublished && exists k: nat :: k > 0 && Accepts(ordered, lookups, checksums, true, k)
    ensures r.Err? ==>
      || r.error == ChecksumsMissing || r.error == Unclassified || r.error == TransientlyUnclassified
      || r.error.ChecksumMismatch? || r.error.UnexpectedChecksum? || r.error.NotAPrefix? || r.error.AlreadyPublished?
  {
    if exists i :: 0 <= i < |ordered| && ordered[i] !in checksums {
      return Err(ChecksumsMissing);
    }
    if PermanentFailure in lookups {
      return Err(Unclassified);
    }
    if TransientFailure in lookups {
      return Err(TransientlyUnclassified);
    }
    assert AllRecords(lookups) by {
      forall i | 0 <= i < |lookups| ensures lookups[i].Record? {
        assert lookups[i] in lookups;
      }
    }
    var sawUnpublished, prefixLength := false, 0;
    var nonPrefix: seq<string> := [];
    for i := 0 to |lookups|
      invariant AllConsistent(ordered, lookups, checksums, i)
      invariant sawUnpublished <==> exists j :: 0 <= j < i && !lookups[j].published
      invariant prefixLength <= i && forall j :: 0 <= j < prefixLength ==> lookups[j].published
      invariant if sawUnpublished then prefixLength < i && !lookups[prefixLength].published else prefixLength == i
      invariant nonPrefix == Stranded(ordered, lookups, i)
    {
      var record := lookups[i];
      if !record.published {
        if record.checksum.Some? {
          return Err(UnexpectedChecksum(ordered[i]));
        }
        sawUnpublished := true;
      } else if record.checksum != Some(checksums[ordered[i]]) {
        return Err(ChecksumMismatch(ordered[i]));
      } else if sawUnpublished {
        nonPrefix := nonPrefix + [ordered[i]];
      } else {
        prefixLength := prefixLength + 1;
      }
    }
    NoneStranded(ordered, lookups, |lookups|);
    if nonPrefix != [] {
      return Err(NotAPrefix(nonPrefix));
    }
    forall k: nat | PublishedPrefix(lookups, k) ensures k == prefixLength {
      PrefixIsUnique(lookups, k, prefixLength);
    }
    if prefixLength > 0 && !allowPublished {
      assert Accepts(ordered, lookups, checksums, true, prefixLength);
      return Err(AlreadyPublished(ordered[..prefixLength]));
    }
    return Ok(prefixLength);
  }

  // ----- the version check of the release workflow -----

  datatype VersionState = Available | Published

  datatype VersionCheckError = NoCrates | DuplicateCrates | LookupsFailed | VersionsPublished(crates: seq<string>) | VersionsNotAPrefix(crates: seq<string>)

  predicate VersionsPrefix(states: seq<Option<VersionState>>, k: nat) {
    k <= |states| && forall i :: 0 <= i < |states| ==> states[i] == Some(if i < k then Published else Available)
  }

  predicate VersionsAccepted(crates: seq<string>, states: seq<Option<VersionState>>, allowRerun: bool, k: nat) {
    crates != [] && Distinct(crates) && |states| == |crates| && VersionsPrefix(states, k) && (k == 0 || allowRerun)
  }

  /** The crates whose version is published, in order. */
  function PublishedOf(crates: seq<string>, states: seq<Option<VersionState>>): (p: seq<string>)
    requires |states| == |crates|
    ensures p == [] <==> forall i :: 0 <= i < |states| ==> states[i] != Some(Published)
  {
    if crates == [] then []
    else (if states[0] == Some(Published) then [crates[0]] else []) + PublishedOf(crates[1..], states[1..])
  }

  /** The published versions behind an available one, among the first `count`. */
  function StrandedVersions(crates: seq<string>, states: seq<Option<VersionState>>, count: nat): seq<string>
    requires count <= |states| == |crates|
  {
    if count == 0 then []
    else
      var rest := StrandedVersions(crates, states, count - 1);
      if states[count - 1] == Some(Published) && (exists i :: 0 <= i < count - 1 && states[i] == Some(Available))
      then rest + [crates[count - 1]] else rest
  }

  lemma {:induction false} NoneStrandedBefore(crates: seq<string>, states: seq<Option<VersionState>>, k: nat, count: nat)
    requires k <= count <= |states| == |crates|
    requires (forall i :: 0 <= i < k ==> states[i] == Some(Published)) && forall i :: k <= i < count ==> states[i] == Some(Available)
    ensures StrandedVersions(crates, states, count) == []
    decreases count
  {
    if count > k {
      NoneStrandedBefore(crates, states, k, count - 1);
    } else if count > 0 {
      NoneStrandedBefore(crates, states, count - 1, count - 1);
    }
  }

  /** `verify_version_set`: the published prefix, if the crates are distinct,
      every version could be looked up and the published ones are a prefix. */
  method VerifyVersionSet(crates: seq<string>, states: seq<Option<VersionState>>, allowRerun: bool)
    returns (r: Result<seq<string>, VersionCheckError>)
    requires |states| == |crates|
    ensures r.Ok? ==> |r.value| <= |crates| && r.value == crates[..|r.value|] && VersionsAccepted(crates, states, allowRerun, |r.value|)
    ensures r.Err? ==> forall k :: !VersionsAccepted(crates, states, allowRerun, k)
    ensures r == Err(NoCrates) <==> crates == []
    ensures r == Err(DuplicateCrates) <==> !Distinct(crates)
    ensures r == Err(LookupsFailed) <==> crates != [] && Distinct(crates) && None in states
    ensures r.Err? && r.error.VersionsPublished? ==> !allowRerun && r.error.crates == PublishedOf(crates, states) != []
    ensures r.Err? && r.error.VersionsNotAPrefix? ==>
      allowRerun && None !in states && r.error.crates == StrandedVersions(crates, states, |states|) != []
  {
    if crates == [] {
      return Err(NoCrates);
    }
    if exists i, j :: 0 <= i < j < |crates| && crates[i] == crates[j] {
      return Err(DuplicateCrates);
    }
    if None in states {
      return Err(LookupsFailed);
    }
    assert forall i :: 0 <= i < |states| ==> states[i].Some? by {
      assert forall i :: 0 <= i < |states| ==> states[i] in states;
    }
    var published := PublishedOf(crates, states);
    if published != [] && !allowRerun {
      return Err(VersionsPublished(published));
    }
    var sawAvailable := false;
    var nonPrefix: seq<string>, prefix: seq<string> := [], [];
    for i := 0 to |states|
      invariant |prefix| <= i && prefix == crates[..|prefix|]
      invariant forall j :: 0 <= j < |prefix| ==> states[j] == Some(Published)
      invariant if sawAvailable then |prefix| < i && states[|prefix|] == Some(Available) else |prefix| == i
      invariant nonPrefix == StrandedVersions(crates, states, i)
      invariant sawAvailable <==> exists j :: 0 <= j < i && states[j] == Some(Available)
      invariant nonPrefix == [] ==> forall j :: |prefix| <= j < i ==> states[j] == Some(Available)
      invariant nonPrefix != [] ==> sawAvailable && exists j :: |prefix| < j < i && states[j] == Some(Published)
    {
      assert states[i].value == Available || states[i].value == Published;
      if states[i] == Some(Available) {
        sawAvailable := true;
      } else if sawAvailable {
        nonPrefix := nonPrefix + [crates[i]];
      } else {
        prefix := prefix + [crates[i]];
      }
    }
    if nonPrefix != [] {
      return Err(VersionsNotAPrefix(nonPrefix));
    }
    return Ok(prefix);
  }

  /** What the version check sees of a registry record. */
  function StateOf(lookup: Lookup): Option<VersionState> {
    if !lookup.Record? then None else Some(if lookup.published then Published else Available)
  }

  function StatesOf(lookups: seq<Lookup>): (states: seq<Option<VersionState>>)
    ensures |states| == |lookups| && forall i :: 0 <= i < |lookups| ==> states[i] == StateOf(lookups[i])
  {
    seq(|lookups|, i requires 0 <= i < |lookups| => StateOf(lookups[i]))
  }

  /** On registries whose checksums match, the version check and the publisher
      accept the same states, with the same prefix. */
  lemma ChecksAgree(ordered: seq<string>, lookups: seq<Lookup>, checksums: map<string, nat>, allow: bool, k: nat)
    requires |lookups| == |ordered| && ordered != [] && Distinct(ordered) && HasChecksums(ordered, checksums)
    requires forall i :: 0 <= i < |lookups| && lookups[i].Record? ==> Consistent(lookups[i], checksums[ordered[i]])
    ensures Accepts(ordered, lookups, checksums, allow, k) <==> VersionsAccepted(ordered, StatesOf(lookups), allow, k)
  {
  }

  /** The accepted length is unique. */
  lemma PrefixIsUnique(lookups: seq<Lookup>, j: nat, k: nat)
    requires AllRecords(lookups) && PublishedPrefix(lookups, j) && PublishedPrefix(lookups, k)
    ensures j == k
  {
    if j < |lookups| {
      assert lookups[j].published <==> j < k;
    }
    if k < |lookups| {
      assert lookups[k].published <==> k < j;
    }
  }
}
