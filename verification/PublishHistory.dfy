/** What a registry and the history of publication attempts look like while an
    ordered release is being published. */
module PublishHistory {
  import opened ReleaseGraph

  /** The source tree as publication sees it: the crates in order, their release
      dependencies, and the checksum of each crate's archive when packaged
      against the registry alone and against the local packages. */
  datatype Workspace = Workspace(ordered: seq<string>, deps: map<string, set<string>>, plain: map<string, nat>, patched: map<string, nat>)

  ghost predicate ValidWorkspace(w: Workspace) {
    && Distinct(w.ordered)
    && (forall c :: c in w.ordered ==> c in w.deps && c in w.plain && c in w.patched)
    && (forall i :: 0 <= i < |w.ordered| ==> forall d :: d in w.deps[w.ordered[i]] ==> d in w.ordered[..i])
  }

  /** A validated graph is such a workspace. */
  lemma ValidGraphsArePublishable(m: Manifest, packages: map<string, Package>, w: Workspace)
    requires IsManifest(m) && ValidGraph(m, packages)
    requires w.ordered == m.ordered && forall c :: c in m.ordered ==> c in w.deps && c in w.plain && c in w.patched
    requires forall c :: c in m.ordered ==> w.deps[c] == ReleaseDeps(packages, m.ordered, c)
    ensures ValidWorkspace(w)
  {
  }

  /** One `cargo publish`, whether the registry took the crate, and whether the
      output reads like a failure that may pass. */
  datatype Attempt = Attempt(crate: string, uploaded: bool, retryable: bool)

  function Uploads(history: seq<Attempt>): seq<string> {
    if history == [] then []
    else
      var last := history[|history| - 1];
      Uploads(history[..|history| - 1]) + (if last.uploaded then [last.crate] else [])
  }

  /** Every attempt is for the first crate not uploaded before it. */
  predicate InOrder(ordered: seq<string>, history: seq<Attempt>) {
    history == [] ||
    var before := history[..|history| - 1];
    && InOrder(ordered, before)
    && |Uploads(before)| < |ordered|
    && history[|history| - 1].crate == ordered[|Uploads(before)|]
  }

  /** The records of a registry that holds the first `k` crates. */
  function PrefixRecords(w: Workspace, k: nat): map<string, nat>
    requires k <= |w.ordered| && forall c :: c in w.ordered ==> c in w.plain
  {
    map c | c in w.ordered[..k] :: w.plain[c]
  }

  /** One more attempt, for the next crate. */
  lemma AttemptNext(ordered: seq<string>, history: seq<Attempt>, k: nat, uploaded: bool, retryable: bool)
    requires InOrder(ordered, history) && k < |ordered| && Uploads(history) == ordered[..k]
    ensures var longer := history + [Attempt(ordered[k], uploaded, retryable)];
      InOrder(ordered, longer) && Uploads(longer) == ordered[..if uploaded then k + 1 else k]
  {
  }

  lemma PrefixRecordsGrow(w: Workspace, k: nat)
    requires k < |w.ordered| && forall c :: c in w.ordered ==> c in w.plain
    ensures PrefixRecords(w, k + 1) == PrefixRecords(w, k)[w.ordered[k] := w.plain[w.ordered[k]]]
  {
  }

  lemma NextIsNotHeld(w: Workspace, k: nat)
    requires ValidWorkspace(w) && k < |w.ordered|
    ensures w.ordered[k] !in PrefixRecords(w, k)
    ensures w.deps[w.ordered[k]] <= PrefixRecords(w, k).Keys
  {
  }

  // ----- what an orderly history implies -----

  lemma {:induction false} UploadsArePrefix(ordered: seq<string>, history: seq<Attempt>)
    requires InOrder(ordered, history)
    ensures |Uploads(history)| <= |ordered| && Uploads(history) == ordered[..|Uploads(history)|]
  {
    if history != [] {
      UploadsArePrefix(ordered, history[..|history| - 1]);
    }
  }

  lemma {:induction false} OrderlyPrefix(ordered: seq<string>, history: seq<Attempt>, m: nat)
    requires InOrder(ordered, history) && m <= |history|
    ensures InOrder(ordered, history[..m])
    decreases |history|
  {
    if m == |history| {
      assert history[..m] == history;
    } else {
      OrderlyPrefix(ordered, history[..|history| - 1], m);
      assert history[..|history| - 1][..m] == history[..m];
    }
  }

  /** No attempt, in any number of runs, is for a crate the registry already
      holds, and none for a crate one of whose dependencies it lacks. */
  lemma NeverAttemptsHeldCrate(w: Workspace, history: seq<Attempt>, m: nat)
    requires ValidWorkspace(w) && InOrder(w.ordered, history) && m < |history|
    ensures history[m].crate in w.deps && history[m].crate !in Uploads(history[..m])
    ensures forall d :: d in w.deps[history[m].crate] ==> d in Uploads(history[..m])
  {
    OrderlyPrefix(w.ordered, history, m + 1);
    assert history[..m + 1][..m] == history[..m];
    UploadsArePrefix(w.ordered, history[..m]);
  }

  /** Nothing is uploaded twice. */
  lemma UploadsAreDistinct(w: Workspace, history: seq<Attempt>)
    requires ValidWorkspace(w) && InOrder(w.ordered, history)
    ensures Distinct(Uploads(history))
  {
    UploadsArePrefix(w.ordered, history);
  }

  /** A registry that holds a prefix holds every dependency of what it holds. */
  lemma HeldCratesHaveTheirDependencies(w: Workspace, k: nat)
    requires ValidWorkspace(w) && k <= |w.ordered|
    ensures forall c :: c in PrefixRecords(w, k) ==> w.deps[c] <= PrefixRecords(w, k).Keys
  {
  }

  function AttemptsFor(history: seq<Attempt>, crate: string): nat {
    if history == [] then 0
    else AttemptsFor(history[..|history| - 1], crate) + (if history[|history| - 1].crate == crate then 1 else 0)
  }

  lemma {:induction false} AttemptsAdd(first: seq<Attempt>, second: seq<Attempt>, crate: string)
    ensures AttemptsFor(first + second, crate) == AttemptsFor(first, crate) + AttemptsFor(second, crate)
  {
    if second == [] {
      assert first + second == first;
    } else {
      assert (first + second)[..|first + second| - 1] == first + second[..|second| - 1];
      AttemptsAdd(first, second[..|second| - 1], crate);
    }
  }

  lemma {:induction false} AttemptsAt(history: seq<Attempt>, at: string, crate: string)
    requires forall m :: 0 <= m < |history| ==> history[m].crate == at
    ensures AttemptsFor(history, crate) == if crate == at then |history| else 0
  {
    if history != [] {
      AttemptsAt(history[..|history| - 1], at, crate);
    }
  }
}
