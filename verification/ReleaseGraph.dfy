/** Validation of the release manifest against the Cargo workspace, and what a
    validated order guarantees. */
module ReleaseGraph {
  import opened Options

  datatype Kind = Normal | Build | Dev

  /** A dependency as Cargo's metadata lists it. */
  datatype Dependency = Dependency(name: string, kind: Kind, source: Option<string>, path: Option<string>, req: string)

  datatype Package = Package(version: string, root: string, publish: Option<seq<string>>, targetKinds: set<string>, dependencies: seq<Dependency>)

  datatype Manifest = Manifest(ordered: seq<string>, contracts: map<string, string>)

  datatype ManifestError =
    | EmptyManifest | DuplicateCrate(crate: string) | UnknownContract(crate: string)
    | WrongCrates(missing: set<string>, extra: set<string>) | MixedVersions | WrongTargets(crate: string)
    | NotWorkspaceSourced(crate: string, dependency: string) | WrongPath(crate: string, dependency: string)
    | InexactRequirement(crate: string, dependency: string) | OutOfOrder(crate: string, dependency: string)

  datatype ValidatedRelease = ValidatedRelease(version: string, registryIndependent: set<string>)

  const CRATES_IO := "crates-io"
  const API_CONTRACTS := {"stable", "experimental", "implementation", "binary"}

  predicate Distinct(s: seq<string>) {
    forall i, j :: 0 <= i < j < |s| ==> s[i] != s[j]
  }

  // ----- the manifest -----

  predicate KnownContract(contract: string) {
    contract == "stable" || contract == "experimental" || contract == "implementation" || contract == "binary"
  }

  ghost predicate IsManifest(m: Manifest) {
    && m.ordered != [] && Distinct(m.ordered)
    && (forall c :: c in m.contracts <==> c in m.ordered)
    && (forall c :: c in m.contracts ==> KnownContract(m.contracts[c]))
  }

  /** Some crates, each once, each with a known contract. */
  predicate WellListed(crates: seq<(string, string)>) {
    && crates != []
    && (forall i :: 0 <= i < |crates| ==> KnownContract(crates[i].1))
    && (forall i, j :: 0 <= i < j < |crates| ==> crates[i].0 != crates[j].0)
  }

  /** The crates of a manifest file, in order, each with its contract. */
  method LoadReleaseManifest(crates: seq<(string, string)>) returns (r: Result<Manifest, ManifestError>)
    ensures r.Ok? <==> WellListed(crates)
    ensures r == Err(EmptyManifest) <==> crates == []
    ensures r.Err? && r.error.DuplicateCrate? ==> exists i, j :: 0 <= i < j < |crates| && crates[i].0 == crates[j].0 == r.error.crate
    ensures r.Err? && r.error.UnknownContract? ==>
      exists i :: 0 <= i < |crates| && crates[i].0 == r.error.crate && !KnownContract(crates[i].1)
    ensures r.Ok? ==> IsManifest(r.value) && |r.value.ordered| == |crates|
    ensures r.Ok? ==> forall i :: 0 <= i < |crates| ==>
      r.value.ordered[i] == crates[i].0 && r.value.contracts[crates[i].0] == crates[i].1
  {
    if crates == [] {
      return Err(EmptyManifest);
    }
    var ordered: seq<string> := [];
    var contracts: map<string, string> := map[];
    for index := 0 to |crates|
      invariant |ordered| == index && Distinct(ordered)
      invariant forall c :: c in contracts <==> c in ordered
      invariant forall i :: 0 <= i < index ==> ordered[i] == crates[i].0 && contracts[crates[i].0] == crates[i].1
      invariant forall i :: 0 <= i < index ==> KnownContract(crates[i].1)
      invariant forall c :: c in contracts ==> KnownContract(contracts[c])
    {
      var (name, contract) := crates[index];
      if name in contracts {
        return Err(DuplicateCrate(name));
      }
      if contract !in API_CONTRACTS {
        return Err(UnknownContract(name));
      }
      ordered := ordered + [name];
      contracts := contracts[name := contract];
    }
    return Ok(Manifest(ordered, contracts));
  }

  // ----- the graph -----

  /** Publication is not restricted, or not to other registries. */
  ghost predicate GoesToCratesIo(p: Package) {
    forall registries :: p.publish == Some(registries) ==> exists i :: 0 <= i < |registries| && registries[i] == "crates-io"
  }

  /** Only binary crates have no library, and those have a binary. */
  ghost predicate TargetsMatch(p: Package, contract: string) {
    && ("lib" in p.targetKinds <==> contract != "binary")
    && (contract == "binary" ==> "bin" in p.targetKinds)
  }

  /** What a dependency of a release crate on another release crate must satisfy. */
  predicate DependencyOk(packages: map<string, Package>, d: Dependency)
    requires d.name in packages
  {
    d.source == None && d.path == Some(packages[d.name].root) && d.req == "=" + packages[d.name].version
  }

  /** The release crates `crate` depends on, development dependencies aside. */
  function ReleaseDeps(packages: map<string, Package>, ordered: seq<string>, crate: string): set<string>
    requires crate in packages
  {
    set d | d in packages[crate].dependencies && d.name in ordered && d.kind != Dev :: d.name
  }

  function PositionOf(ordered: seq<string>, crate: string): (i: nat)
    requires crate in ordered
    ensures i < |ordered| && ordered[i] == crate
  {
    if ordered[0] == crate then 0 else 1 + PositionOf(ordered[1..], crate)
  }

  lemma PositionUnique(ordered: seq<string>, i: nat)
    requires Distinct(ordered) && i < |ordered|
    ensures PositionOf(ordered, ordered[i]) == i
  {
  }

  predicate Ordered(packages: map<string, Package>, ordered: seq<string>, i: nat, d: Dependency)
    requires i < |ordered| && d.name in ordered
  {
    d.kind != Dev ==> PositionOf(ordered, d.name) < i
  }

  predicate DependenciesOk(packages: map<string, Package>, ordered: seq<string>, i: nat, count: nat)
    requires i < |ordered| && (forall c :: c in ordered ==> c in packages) && count <= |packages[ordered[i]].dependencies|
  {
    forall n :: 0 <= n < count && packages[ordered[i]].dependencies[n].name in ordered ==>
      DependencyOk(packages, packages[ordered[i]].dependencies[n]) && Ordered(packages, ordered, i, packages[ordered[i]].dependencies[n])
  }

  /** The manifest lists exactly the publishable crates, at one version, with the
      targets their contracts ask for, every release dependency exact and local,
      and every crate behind what it depends on. */
  ghost predicate ValidGraph(m: Manifest, packages: map<string, Package>)
    requires IsManifest(m)
  {
    && ListsExactly(m, packages)
    && (forall i :: 0 <= i < |m.ordered| ==> packages[m.ordered[i]].version == packages[m.ordered[0]].version)
    && (forall i :: 0 <= i < |m.ordered| ==> TargetsMatch(packages[m.ordered[i]], m.contracts[m.ordered[i]]))
    && AllDependenciesOk(packages, m.ordered, |m.ordered|)
  }

  /** `_crates_io_publishable`. */
  predicate Publishable(p: Package) {
    p.publish == None || CRATES_IO in p.publish.value
  }

  function PublishableCrates(packages: map<string, Package>): (crates: set<string>)
    ensures forall c :: c in crates <==> c in packages && GoesToCratesIo(packages[c])
  {
    set c | c in packages && Publishable(packages[c])
  }

  method CheckTargets(m: Manifest, packages: map<string, Package>) returns (error: Option<ManifestError>)
    requires IsManifest(m) && forall c :: c in m.ordered ==> c in packages
    ensures error == None <==> forall i :: 0 <= i < |m.ordered| ==> TargetsMatch(packages[m.ordered[i]], m.contracts[m.ordered[i]])
    ensures error.Some? ==>
      error.value.WrongTargets? && error.value.crate in m.ordered && !TargetsMatch(packages[error.value.crate], m.contracts[error.value.crate])
  {
    for i := 0 to |m.ordered|
      invariant forall j :: 0 <= j < i ==> TargetsMatch(packages[m.ordered[j]], m.contracts[m.ordered[j]])
    {
      var kinds := packages[m.ordered[i]].targetKinds;
      var hasLibrary, hasBinary := "lib" in kinds, "bin" in kinds;
      if m.contracts[m.ordered[i]] == "binary" {
        if !hasBinary || hasLibrary {
          return Some(WrongTargets(m.ordered[i]));
        }
      } else if !hasLibrary {
        return Some(WrongTargets(m.ordered[i]));
      }
    }
    return None;
  }

  predicate IsDependencyError(e: ManifestError) {
    e.NotWorkspaceSourced? || e.WrongPath? || e.InexactRequirement? || e.OutOfOrder?
  }

  /** A dependency of the crate at position `i`, when it names a release crate. */
  method CheckDependency(packages: map<string, Package>, ordered: seq<string>, i: nat, d: Dependency) returns (error: Option<ManifestError>)
    requires i < |ordered| && d.name in ordered && d.name in packages
    ensures error == None <==> DependencyOk(packages, d) && Ordered(packages, ordered, i, d)
    ensures error.Some? ==> IsDependencyError(error.value)
    ensures error == Some(NotWorkspaceSourced(ordered[i], d.name)) <==> d.source.Some? || d.path == None
    ensures error == Some(WrongPath(ordered[i], d.name)) <==>
      d.source == None && d.path.Some? && d.path.value != packages[d.name].root
    ensures error == Some(InexactRequirement(ordered[i], d.name)) <==>
      d.source == None && d.path == Some(packages[d.name].root) && d.req != "=" + packages[d.name].version
    ensures error == Some(OutOfOrder(ordered[i], d.name)) <==> DependencyOk(packages, d) && !Ordered(packages, ordered, i, d)
  {
    var crate := ordered[i];
    if d.source.Some? || d.path == None {
      return Some(NotWorkspaceSourced(crate, d.name));
    }
    if d.path.value != packages[d.name].root {
      return Some(WrongPath(crate, d.name));
    }
    if d.req != "=" + packages[d.name].version {
      return Some(InexactRequirement(crate, d.name));
    }
    if d.kind == Dev {
      return None;
    }
    return if PositionOf(ordered, d.name) >= i then Some(OutOfOrder(crate, d.name)) else None;
  }

  method CheckDependencies(packages: map<string, Package>, ordered: seq<string>, i: nat)
    returns (error: Option<ManifestError>, found: set<string>)
    requires i < |ordered| && forall c :: c in ordered ==> c in packages
    ensures error == None <==> DependenciesOk(packages, ordered, i, |packages[ordered[i]].dependencies|)
    ensures error.Some? ==> IsDependencyError(error.value)
    ensures error == None ==> found == ReleaseDeps(packages, ordered, ordered[i])
  {
    var dependencies := packages[ordered[i]].dependencies;
    found := {};
    for n := 0 to |dependencies|
      invariant DependenciesOk(packages, ordered, i, n)
      invariant found == set d | d in dependencies[..n] && d.name in ordered && d.kind != Dev :: d.name
    {
      var d := dependencies[n];
      assert dependencies[..n + 1] == dependencies[..n] + [d];
      if d.name !in ordered {
        continue;
      }
      error := CheckDependency(packages, ordered, i, d);
      if error.Some? {
        return;
      }
      if d.kind != Dev {
        found := found + {d.name};
      }
    }
    assert dependencies[..|dependencies|] == dependencies;
    error := None;
  }

  predicate AllDependenciesOk(packages: map<string, Package>, ordered: seq<string>, count: nat)
    requires (forall c :: c in ordered ==> c in packages) && count <= |ordered|
  {
    forall i :: 0 <= i < count ==> DependenciesOk(packages, ordered, i, |packages[ordered[i]].dependencies|)
  }

  method CheckAllDependencies(packages: map<string, Package>, ordered: seq<string>)
    returns (error: Option<ManifestError>, independent: set<string>)
    requires forall c :: c in ordered ==> c in packages
    ensures error == None <==> AllDependenciesOk(packages, ordered, |ordered|)
    ensures error.Some? ==> IsDependencyError(error.value)
    ensures error == None ==> forall c :: c in independent <==> c in ordered && ReleaseDeps(packages, ordered, c) == {}
  {
    independent := {};
    for i := 0 to |ordered|
      invariant AllDependenciesOk(packages, ordered, i)
      invariant forall c :: c in independent <==> c in ordered[..i] && ReleaseDeps(packages, ordered, c) == {}
    {
      var found: set<string>;
      error, found := CheckDependencies(packages, ordered, i);
      if error.Some? {
        return;
      }
      assert ordered[..i + 1] == ordered[..i] + [ordered[i]];
      if found == {} {
        independent := independent + {ordered[i]};
      }
    }
    assert ordered[..|ordered|] == ordered;
    error := None;
  }

  ghost predicate ListsExactly(m: Manifest, packages: map<string, Package>) {
    forall c :: c in m.ordered <==> c in packages && GoesToCratesIo(packages[c])
  }

  lemma ListedAsSets(m: Manifest, packages: map<string, Package>)
    ensures PublishableCrates(packages) == (set c | c in m.ordered) <==> ListsExactly(m, packages)
  {
    if PublishableCrates(packages) == set c | c in m.ordered {
      forall c ensures c in m.ordered <==> c in packages && GoesToCratesIo(packages[c]) {
        assert c in PublishableCrates(packages) <==> c in set c | c in m.ordered;
      }
    } else if ListsExactly(m, packages) {
      assert forall c :: c in PublishableCrates(packages) <==> c in m.ordered;
    }
  }

  lemma OneVersion(packages: map<string, Package>, ordered: seq<string>)
    requires ordered != [] && forall c :: c in ordered ==> c in packages
    ensures |set c | c in ordered :: packages[c].version| == 1
      <==> forall i :: 0 <= i < |ordered| ==> packages[ordered[i]].version == packages[ordered[0]].version
  {
    var versions := set c | c in ordered :: packages[c].version;
    var first := packages[ordered[0]].version;
    assert ordered[0] in ordered && first in versions;
    if forall i :: 0 <= i < |ordered| ==> packages[ordered[i]].version == first {
      assert versions == {first};
    } else {
      var i :| 0 <= i < |ordered| && packages[ordered[i]].version != first;
      assert ordered[i] in ordered;
      assert {first, packages[ordered[i]].version} <= versions;
      Subset({first, packages[ordered[i]].version}, versions);
    }
  }

  lemma Subset<T>(a: set<T>, b: set<T>)
    requires a <= b
    ensures |a| <= |b|
  {
    assert |b| == |a| + |b - a| by {
      assert b == a + (b - a);
    }
  }

  /** Accepts exactly the valid graphs; the crates it calls independent are those
      without a release dependency. */
  method ValidateReleaseGraph(m: Manifest, packages: map<string, Package>) returns (r: Result<ValidatedRelease, ManifestError>)
    requires IsManifest(m)
    ensures r.Ok? <==> ValidGraph(m, packages)
    ensures r.Err? && r.error.WrongCrates? <==> !ListsExactly(m, packages)
    ensures r.Err? && r.error.WrongCrates? ==>
      forall c :: c in r.error.missing <==> c in packages && GoesToCratesIo(packages[c]) && c !in m.ordered
    ensures r.Err? && r.error.WrongCrates? ==>
      forall c :: c in r.error.extra <==> c in m.ordered && !(c in packages && GoesToCratesIo(packages[c]))
    ensures r == Err(MixedVersions) <==>
      ListsExactly(m, packages) && exists c :: c in m.ordered && packages[c].version != packages[m.ordered[0]].version
    ensures r.Err? && r.error.WrongTargets? ==>
      ListsExactly(m, packages) && r.error.crate in m.ordered && !TargetsMatch(packages[r.error.crate], m.contracts[r.error.crate])
    ensures r.Err? ==> r.error.WrongCrates? || r.error.MixedVersions? || r.error.WrongTargets? || IsDependencyError(r.error)
    ensures r.Err? && IsDependencyError(r.error) ==>
      ListsExactly(m, packages) && !AllDependenciesOk(packages, m.ordered, |m.ordered|)
    ensures r.Ok? ==> forall c :: c in m.ordered ==> packages[c].version == r.value.version
    ensures r.Ok? ==> forall c :: c in r.value.registryIndependent <==> c in m.ordered && ReleaseDeps(packages, m.ordered, c) == {}
  {
    hide TargetsMatch, DependenciesOk, GoesToCratesIo, ReleaseDeps;
    ListedAsSets(m, packages);
    var publishable, listed := PublishableCrates(packages), set c | c in m.ordered;
    if publishable != listed {
      return Err(WrongCrates(publishable - listed, listed - publishable));
    }
    OneVersion(packages, m.ordered);
    if |set c | c in m.ordered :: packages[c].version| != 1 {
      return Err(MixedVersions);
    }
    var error := CheckTargets(m, packages);
    if error.Some? {
      return Err(error.value);
    }
    var independent: set<string>;
    error, independent := CheckAllDependencies(packages, m.ordered);
    if error.Some? {
      return Err(error.value);
    }
    return Ok(ValidatedRelease(packages[m.ordered[0]].version, independent));
  }

  // ----- what a validated order guarantees -----

  predicate DependsOn(packages: map<string, Package>, ordered: seq<string>, a: string, b: string) {
    a in packages && b in ReleaseDeps(packages, ordered, a)
  }

  /** Consecutive members of `path` depend on each other. */
  predicate IsPath(packages: map<string, Package>, ordered: seq<string>, path: seq<string>) {
    path != [] && path[0] in ordered
    && forall i :: 0 <= i < |path| - 1 ==> DependsOn(packages, ordered, path[i], path[i + 1])
  }

  lemma DependencyIsEarlier(m: Manifest, packages: map<string, Package>, i: nat, b: string)
    requires IsManifest(m) && ValidGraph(m, packages) && i < |m.ordered| && DependsOn(packages, m.ordered, m.ordered[i], b)
    ensures b in m.ordered && PositionOf(m.ordered, b) < i
  {
  }

  /** Along a path of dependencies of any length the positions fall. */
  lemma {:induction false} PathDescends(m: Manifest, packages: map<string, Package>, path: seq<string>, last: nat)
    requires IsManifest(m) && ValidGraph(m, packages) && IsPath(packages, m.ordered, path) && last < |path|
    ensures path[last] in m.ordered
    ensures PositionOf(m.ordered, path[last]) + last <= PositionOf(m.ordered, path[0])
    decreases last
  {
    if last > 0 {
      PathDescends(m, packages, path, last - 1);
      assert DependsOn(packages, m.ordered, path[last - 1], path[last - 1 + 1]);
      DependencyIsEarlier(m, packages, PositionOf(m.ordered, path[last - 1]), path[last]);
    }
  }

  /** No crate reaches itself, and no path is longer than the manifest. */
  lemma ReleaseGraphIsAcyclic(m: Manifest, packages: map<string, Package>, path: seq<string>)
    requires IsManifest(m) && ValidGraph(m, packages) && IsPath(packages, m.ordered, path)
    ensures |path| > 1 ==> path[0] != path[|path| - 1]
    ensures |path| <= |m.ordered|
  {
    PathDescends(m, packages, path, |path| - 1);
  }

  /** Every prefix of the manifest is closed under transitive dependencies. */
  lemma PrefixesAreClosed(m: Manifest, packages: map<string, Package>, k: nat, path: seq<string>)
    requires IsManifest(m) && ValidGraph(m, packages) && IsPath(packages, m.ordered, path)
    requires k <= |m.ordered| && path[0] in m.ordered[..k]
    ensures forall i :: 0 <= i < |path| ==> path[i] in m.ordered[..k]
  {
    var first :| 0 <= first < k && m.ordered[..k][first] == path[0];
    PositionUnique(m.ordered, first);
    forall i | 0 <= i < |path| ensures path[i] in m.ordered[..k] {
      PathDescends(m, packages, path, i);
      assert m.ordered[..k][PositionOf(m.ordered, path[i])] == path[i];
    }
  }

  /** Development dependencies are left out of the order: they may well be
      circular. */
  lemma DevelopmentCyclesAreAccepted() returns (m: Manifest, packages: map<string, Package>)
    ensures IsManifest(m) && m.ordered == ["a", "b"] && ValidGraph(m, packages)
    ensures exists d :: d in packages["a"].dependencies && d.kind == Dev && d.name == "b"
    ensures DependsOn(packages, m.ordered, "b", "a")
  {
    var back := Dependency("b", Dev, None, Some("/b"), "=1");
    var forth := Dependency("a", Normal, None, Some("/a"), "=1");
    m := Manifest(["a", "b"], map["a" := "stable", "b" := "stable"]);
    packages := map["a" := Package("1", "/a", None, {"lib"}, [back]), "b" := Package("1", "/b", None, {"lib"}, [forth])];
    assert m.ordered[0] == "a" && m.ordered[1] == "b" && "a"[0] != "b"[0];
    TwoInOrder(m, packages, "a", "b", back, forth);
    assert back in packages["a"].dependencies;
  }

  /** Two libraries, of which the first has a development dependency on the second
      and the second an ordinary one on the first, make a valid graph. */
  lemma TwoInOrder(m: Manifest, packages: map<string, Package>, first: string, second: string, back: Dependency, forth: Dependency)
    requires IsManifest(m) && m.ordered == [first, second] && first != second && packages.Keys == {first, second}
    requires packages[first].version == packages[second].version && back.kind == Dev && forth.kind != Dev
    requires packages[first].publish == packages[second].publish == None
    requires packages[first].targetKinds == packages[second].targetKinds == {"lib"}
    requires m.contracts[first] != "binary" && m.contracts[second] != "binary"
    requires packages[first].dependencies == [back] && back.name == second && DependencyOk(packages, back)
    requires packages[second].dependencies == [forth] && forth.name == first && DependencyOk(packages, forth)
    ensures ValidGraph(m, packages) && DependsOn(packages, m.ordered, second, first)
  {
    hide DependencyOk, IsManifest;
    assert m.ordered[0] == first && m.ordered[1] == second;
    assert PositionOf(m.ordered, first) == 0;
    assert DependenciesOk(packages, m.ordered, 0, 1) && DependenciesOk(packages, m.ordered, 1, 1);
    assert forth in packages[second].dependencies && forth.name in m.ordered;
  }
}
