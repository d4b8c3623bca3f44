/** Planning which CI jobs a change needs, and judging their results. */
module CiPlan {
  import opened Options
  import opened DependencyClosure

  const CUDA_ROOTS := ["j2k-cuda-runtime", "j2k-jpeg-cuda", "j2k-cuda", "j2k-transcode-cuda"]
  const METAL_ROOTS := ["j2k-metal-support", "j2k-jpeg-metal", "j2k-metal", "j2k-transcode-metal"]
  const SHARED_GPU_PACKAGES := {"j2k-ml"}
  const DOCUMENTATION_PATHS := {
    "CHANGELOG.md", "CODE_OF_CONDUCT.md", "CONTRIBUTING.md", "LICENSE", "LICENSE-APACHE", "LICENSE-MIT",
    "NOTICES.md", "README.md", "SECURITY.md" }
  const QUALITY_EVIDENCE_PREFIXES := ["docs/stable-api-", "docs/release-evidence/public-api/"]
  const BROAD_PATHS := {"Cargo.lock", "Cargo.toml", "deny.toml", "rust-toolchain.toml", "typos.toml"}
  const BROAD_PREFIXES := [".cargo/", ".github/workflows/", "scripts/", "xtask/"]
  const SOURCE_SUFFIXES := [".rs", ".toml", ".lock", ".py", ".sh", ".yml", ".yaml"]
  const HOSTED_ONLY := {".gitignore", ".jscpd.json", ".github/CODEOWNERS"}

  predicate StartsWithAny(path: string, prefixes: seq<string>) {
    exists i :: 0 <= i < |prefixes| && prefixes[i] <= path
  }

  predicate EndsWithAny(path: string, suffixes: seq<string>) {
    exists i :: 0 <= i < |suffixes| && |suffixes[i]| <= |path| && path[|path| - |suffixes[i]|..] == suffixes[i]
  }

  // ----- the package a path belongs to -----

  datatype Root = Root(path: string, package: string)

  predicate Contains(root: Root, path: string) {
    path == root.path || root.path + "/" <= path
  }

  /** The first of the longest roots that contain the path. */
  function Owner(path: string, roots: seq<Root>): Option<Root> {
    if roots == [] then None
    else
      var best := Owner(path, roots[..|roots| - 1]);
      var last := roots[|roots| - 1];
      if Contains(last, path) && (best == None || |last.path| > |best.value.path|) then Some(last) else best
  }

  /** The path is the root, or goes on behind it with a slash. */
  predicate IsBelow(path: string, root: string) {
    root <= path && (|path| == |root| || path[|root|] == '/')
  }

  lemma ContainsExactly(root: Root, path: string)
    ensures Contains(root, path) <==> IsBelow(path, root.path)
  {
    if IsBelow(path, root.path) && path != root.path {
      assert path[..|root.path| + 1] == root.path + "/";
    }
  }

  /** Root `i` is this one, and the first of its path. */
  predicate FirstAt(roots: seq<Root>, i: int, root: Root) {
    0 <= i < |roots| && roots[i] == root && forall j :: 0 <= j < i ==> roots[j].path != root.path
  }

  /** The owner is the innermost root around the path, whatever the order the
      roots are listed in, and the first of those if it is listed more than once. */
  lemma {:induction false} OwnerIsInnermost(path: string, roots: seq<Root>)
    ensures Owner(path, roots) == None <==> forall i :: 0 <= i < |roots| ==> !IsBelow(path, roots[i].path)
    ensures Owner(path, roots).Some? ==> IsBelow(path, Owner(path, roots).value.path)
    ensures Owner(path, roots).Some? ==>
      forall i :: 0 <= i < |roots| && IsBelow(path, roots[i].path) ==> roots[i].path <= Owner(path, roots).value.path
    ensures Owner(path, roots).Some? ==> exists i :: FirstAt(roots, i, Owner(path, roots).value)
  {
    if roots != [] {
      hide IsBelow, Contains;
      var init, last := roots[..|roots| - 1], roots[|roots| - 1];
      OwnerIsInnermost(path, init);
      ContainsExactly(last, path);
      var best := Owner(path, init);
      if best.Some? {
        var k :| FirstAt(init, k, best.value);
        assert FirstAt(roots, k, best.value);
        if IsBelow(path, last.path) {
          Nested(best.value.path, last.path, path);
        }
      }
      assert roots[|init|] == last && forall i :: 0 <= i < |init| ==> roots[i] == init[i];
      if Owner(path, roots) == Some(last) && Contains(last, path) && best != Some(last) {
        assert FirstAt(roots, |init|, last);
      }
    }
  }

  /** Two roots around one path are nested. */
  lemma Nested(a: string, b: string, path: string)
    requires IsBelow(path, a) && IsBelow(path, b)
    ensures |a| <= |b| ==> a <= b
    ensures |b| <= |a| ==> b <= a
  {
    assert a == path[..|a|] && b == path[..|b|];
  }

  // ----- classification -----

  datatype Flags = Flags(rust: bool, docs: bool, cuda: bool, metal: bool)

  const NO_FLAGS := Flags(false, false, false, false)
  const ALL_CODE := Flags(true, false, true, true)

  function Or(a: Flags, b: Flags): Flags {
    Flags(a.rust || b.rust, a.docs || b.docs, a.cuda || b.cuda, a.metal || b.metal)
  }

  /** The workspace: package roots, and what the GPU roots depend on. */
  datatype Graph = Graph(roots: seq<Root>, cuda: set<string>, metal: set<string>)

  function PackageFlags(package: string, g: Graph): Flags {
    if package in SHARED_GPU_PACKAGES then ALL_CODE else Flags(true, false, package in g.cuda, package in g.metal)
  }

  predicate IsQualityEvidence(path: string) {
    StartsWithAny(path, QUALITY_EVIDENCE_PREFIXES)
  }

  predicate IsDocumentation(path: string) {
    path in DOCUMENTATION_PATHS || "docs/" <= path
  }

  predicate IsBroad(path: string) {
    path in BROAD_PATHS || StartsWithAny(path, BROAD_PREFIXES)
  }

  function PathFlags(path: string, g: Graph): Flags {
    if IsQualityEvidence(path) then Flags(true, true, true, true)
    else if IsDocumentation(path) then Flags(false, true, false, false)
    else if IsBroad(path) then ALL_CODE
    else if Owner(path, g.roots).Some? then PackageFlags(Owner(path, g.roots).value.package, g)
    else if "crates/" <= path then ALL_CODE
    else if EndsWithAny(path, SOURCE_SUFFIXES) then ALL_CODE
    else if path in HOSTED_ONLY then Flags(true, false, false, false)
    else ALL_CODE
  }

  /** A flag is raised exactly if some path raises it. */
  ghost predicate Raised(paths: seq<string>, g: Graph, flags: Flags) {
    && (flags.rust <==> exists p :: p in paths && PathFlags(p, g).rust)
    && (flags.docs <==> exists p :: p in paths && PathFlags(p, g).docs)
    && (flags.cuda <==> exists p :: p in paths && PathFlags(p, g).cuda)
    && (flags.metal <==> exists p :: p in paths && PathFlags(p, g).metal)
  }

  lemma NothingRaised(g: Graph)
    ensures Raised([], g, NO_FLAGS)
  {
  }

  lemma RaisedAdds(paths: seq<string>, g: Graph, flags: Flags, path: string)
    requires Raised(paths, g, flags)
    ensures Raised(paths + [path], g, Or(flags, PathFlags(path, g)))
  {
  }

  datatype Plan = Plan(flags: Flags, metalCompile: bool, paths: seq<string>)

  /** `a` occurs before `b` ever does. */
  ghost predicate ComesFirst(paths: seq<string>, a: string, b: string) {
    exists k :: 0 <= k < |paths| && paths[k] == a && b !in paths[..k + 1]
  }

  /** `r` is `paths` without repetitions, in the order of first occurrences. */
  ghost predicate FirstOccurrences(paths: seq<string>, r: seq<string>) {
    && (forall p :: p in r <==> p in paths)
    && (forall i, j :: 0 <= i < j < |r| ==> ComesFirst(paths, r[i], r[j]) && r[i] != r[j])
  }

  lemma NewComesLast(paths: seq<string>, i: nat, a: string)
    requires i < |paths| && a in paths[..i] && paths[i] !in paths[..i]
    ensures ComesFirst(paths, a, paths[i])
  {
    var k :| 0 <= k < i && paths[..i][k] == a;
    assert paths[k] == a && paths[..k + 1] <= paths[..i];
  }

  method Deduplicate(paths: seq<string>) returns (r: seq<string>)
    ensures FirstOccurrences(paths, r) && (r == [] <==> paths == [])
  {
    hide ComesFirst;
    r := [];
    for i := 0 to |paths|
      invariant forall p :: p in r <==> p in paths[..i]
      invariant forall k, j :: 0 <= k < j < |r| ==> ComesFirst(paths, r[k], r[j]) && r[k] != r[j]
      invariant r == [] <==> i == 0
    {
      assert paths[..i + 1] == paths[..i] + [paths[i]];
      if paths[i] !in r {
        forall k | 0 <= k < |r| ensures ComesFirst(paths, r[k], paths[i]) {
          NewComesLast(paths, i, r[k]);
        }
        r := r + [paths[i]];
      }
    }
    assert paths[..|paths|] == paths;
  }

  /** `classify_paths` over normalized paths. */
  method ClassifyPaths(paths: seq<string>, roots: seq<Root>, dependencies: map<string, set<string>>) returns (r: Option<Plan>, ghost g: Graph)
    ensures r.Some? <==> paths != [] && (exists s :: IsClosed(dependencies, CUDA_ROOTS, s)) && (exists s :: IsClosed(dependencies, METAL_ROOTS, s))
    ensures r.Some? ==> GraphFor(g, roots, dependencies) && Raised(paths, g, r.value.flags)
    ensures r.Some? ==> r.value.metalCompile == r.value.flags.metal && FirstOccurrences(paths, r.value.paths)
  {
    hide ComesFirst;
    g := Graph(roots, {}, {});
    var normalized := Deduplicate(paths);
    if normalized == [] {
      return None, g;
    }
    var cuda := Closure(CUDA_ROOTS, dependencies);
    if cuda == None {
      return None, g;
    }
    var metal := Closure(METAL_ROOTS, dependencies);
    if metal == None {
      return None, g;
    }
    var graph := Graph(roots, cuda.value, metal.value);
    g := graph;
    var flags := ClassifyEach(normalized, graph);
    return Some(Plan(flags, flags.metal, normalized)), g;
  }

  ghost predicate GraphFor(g: Graph, roots: seq<Root>, dependencies: map<string, set<string>>) {
    && g.roots == roots
    && IsClosed(dependencies, CUDA_ROOTS, g.cuda) && (forall s :: IsClosed(dependencies, CUDA_ROOTS, s) ==> g.cuda <= s)
    && IsClosed(dependencies, METAL_ROOTS, g.metal) && (forall s :: IsClosed(dependencies, METAL_ROOTS, s) ==> g.metal <= s)
  }

  /** The loop over the paths, with its early continues. */
  method ClassifyEach(paths: seq<string>, g: Graph) returns (flags: Flags)
    ensures Raised(paths, g, flags)
  {
    hide Raised;
    var rust, docs, cuda, metal := false, false, false, false;
    NothingRaised(g);
    assert paths[..0] == [];
    for i := 0 to |paths|
      invariant Raised(paths[..i], g, Flags(rust, docs, cuda, metal))
    {
      var path := paths[i];
      RaisedAdds(paths[..i], g, Flags(rust, docs, cuda, metal), path);
      assert paths[..i + 1] == paths[..i] + [path];
      if IsQualityEvidence(path) {
        docs, rust, cuda, metal := true, true, true, true;
        continue;
      }
      if IsDocumentation(path) {
        docs := true;
        continue;
      }
      if IsBroad(path) {
        rust, cuda, metal := true, true, true;
        continue;
      }
      var owner := Owner(path, g.roots);
      if owner.Some? {
        var package := owner.value.package;
        rust := true;
        if package in SHARED_GPU_PACKAGES {
          cuda, metal := true, true;
        } else {
          cuda := cuda || package in g.cuda;
          metal := metal || package in g.metal;
        }
        continue;
      }
      if "crates/" <= path || EndsWithAny(path, SOURCE_SUFFIXES) {
        rust, cuda, metal := true, true, true;
        continue;
      }
      if path in HOSTED_ONLY {
        rust := true;
        continue;
      }
      rust, cuda, metal := true, true, true;
    }
    assert paths[..|paths|] == paths;
    flags := Flags(rust, docs, cuda, metal);
  }

  /** Planning two changes together raises exactly what either raises alone. */
  lemma FlagsOfJoinedPaths(a: seq<string>, b: seq<string>, g: Graph, x: Flags, y: Flags, both: Flags)
    requires Raised(a, g, x) && Raised(b, g, y) && Raised(a + b, g, both)
    ensures both == Or(x, y)
  {
  }

  /** No change goes unnoticed. */
  lemma EveryPathRaisesSomething(paths: seq<string>, g: Graph, flags: Flags)
    requires Raised(paths, g, flags) && paths != []
    ensures flags.rust || flags.docs
  {
    assert paths[0] in paths;
    assert PathFlags(paths[0], g).rust || PathFlags(paths[0], g).docs;
  }

  /** A change inside a package asks for the jobs of a GPU exactly if the package
      is shared by both, or a package of that GPU depends on it through any number
      of steps. */
  lemma PackagesRaiseExactly(g: Graph, roots: seq<Root>, dependencies: map<string, set<string>>, package: string)
    requires GraphFor(g, roots, dependencies)
    ensures PackageFlags(package, g).rust && !PackageFlags(package, g).docs
    ensures PackageFlags(package, g).cuda <==>
      package == "j2k-ml" || Reached(dependencies, ["j2k-cuda-runtime", "j2k-jpeg-cuda", "j2k-cuda", "j2k-transcode-cuda"], package)
    ensures PackageFlags(package, g).metal <==>
      package == "j2k-ml" || Reached(dependencies, ["j2k-metal-support", "j2k-jpeg-metal", "j2k-metal", "j2k-transcode-metal"], package)
  {
    ClosureIsReached(dependencies, CUDA_ROOTS, g.cuda, package);
    ClosureIsReached(dependencies, METAL_ROOTS, g.metal, package);
  }

  /** One of the paths that change the evidence of quality itself. */
  predicate Evidence(path: string) {
    "docs/stable-api-" <= path || "docs/release-evidence/public-api/" <= path
  }

  predicate Document(path: string) {
    "docs/" <= path || path in {
      "README.md", "CHANGELOG.md", "CONTRIBUTING.md", "CODE_OF_CONDUCT.md", "SECURITY.md", "NOTICES.md",
      "LICENSE", "LICENSE-APACHE", "LICENSE-MIT" }
  }

  /** Configuration that may touch everything. */
  predicate Everywhere(path: string) {
    || path in {"Cargo.toml", "Cargo.lock", "deny.toml", "rust-toolchain.toml", "typos.toml"}
    || ".cargo/" <= path || ".github/workflows/" <= path || "scripts/" <= path || "xtask/" <= path
  }

  /** Every other path belongs to a package, is one of three files that concern
      the hosting, or raises everything but documentation: the tests for
      `crates/` and for source suffixes decide nothing. */
  lemma PathsRaiseExactly(path: string, g: Graph)
    ensures var flags, owner := PathFlags(path, g), Owner(path, g.roots);
      && (flags.docs <==> Document(path))
      && (flags.rust <==> Evidence(path) || !Document(path))
      && (!Document(path) && !Everywhere(path) && owner.Some? ==> flags == PackageFlags(owner.value.package, g))
      && (Document(path) || Everywhere(path) || owner == None ==>
           var all := Evidence(path) || (!Document(path) && (Everywhere(path) || path !in {".gitignore", ".jscpd.json", ".github/CODEOWNERS"}));
           (flags.cuda <==> all) && (flags.metal <==> all))
  {
    EvidenceIsQuality(path);
    EverywhereIsBroad(path);
    assert |path| >= 16 && path[..16] == "docs/stable-api-" ==> path[..5] == "docs/";
    hide StartsWithAny, EndsWithAny, Owner;
    if path in HOSTED_ONLY {
      HostedIsPlain(path);
    }
  }

  lemma EvidenceIsQuality(path: string)
    ensures IsQualityEvidence(path) <==> Evidence(path)
    ensures Evidence(path) ==> "docs/" <= path
  {
    assert QUALITY_EVIDENCE_PREFIXES[0] == "docs/stable-api-" && QUALITY_EVIDENCE_PREFIXES[1] == "docs/release-evidence/public-api/";
    if Evidence(path) {
      var prefix := if "docs/stable-api-" <= path then "docs/stable-api-" else "docs/release-evidence/public-api/";
      assert prefix[..5] == "docs/" && path[..5] == prefix[..5];
    }
  }

  lemma EverywhereIsBroad(path: string)
    ensures IsBroad(path) <==> Everywhere(path)
  {
    assert BROAD_PREFIXES[0] == ".cargo/" && BROAD_PREFIXES[1] == ".github/workflows/";
    assert BROAD_PREFIXES[2] == "scripts/" && BROAD_PREFIXES[3] == "xtask/";
  }

  /** The three files are neither code nor inside `crates/`. */
  lemma HostedIsPlain(path: string)
    requires path in HOSTED_ONLY
    ensures !("crates/" <= path) && !EndsWithAny(path, SOURCE_SUFFIXES)
  {
    var last := path[|path| - 1];
    assert last == 'e' || last == 'n' || last == 'S';
    assert path[0] == '.';
    forall i | 0 <= i < |SOURCE_SUFFIXES| && |SOURCE_SUFFIXES[i]| <= |path|
      ensures path[|path| - |SOURCE_SUFFIXES[i]|..] != SOURCE_SUFFIXES[i]
    {
      var suffix := SOURCE_SUFFIXES[i];
      assert path[|path| - |suffix|..][|suffix| - 1] == last;
    }
  }

  // ----- the aggregate -----

  datatype Expectation = Required | Optional | MalformedExpectation

  datatype JobResult = Outcome(result: string) | MalformedResult

  const CONDITIONAL_JOBS := {"rust-quality", "docs", "metal-compile"}

  function Expectations(plan: Plan): map<string, Expectation> {
    map["rust-quality" := Wanted(plan.flags.rust), "docs" := Wanted(plan.flags.docs), "metal-compile" := Wanted(plan.metalCompile)]
  }

  function Wanted(flag: bool): Expectation {
    if flag then Required else Optional
  }

  predicate Ended(results: map<string, JobResult>, job: string, result: string) {
    job in results && results[job] == Outcome(result)
  }

  /** A required job has succeeded, and an optional one has or was skipped. */
  predicate JobOk(expectations: map<string, Expectation>, results: map<string, JobResult>, job: string)
    requires job in expectations
  {
    && !expectations[job].MalformedExpectation?
    && (Ended(results, job, "success") || (expectations[job].Optional? && Ended(results, job, "skipped")))
  }

  /** A job that keeps the aggregate from passing. */
  predicate Rejected(expectations: map<string, Expectation>, results: map<string, JobResult>, alwaysRequired: seq<string>, job: string) {
    (job in alwaysRequired && !Ended(results, job, "success")) || (job in expectations && !JobOk(expectations, results, job))
  }

  /** The result of a job, or a word for having none. */
  function ResultFor(results: map<string, JobResult>, job: string): string {
    if job !in results then "missing"
    else
      match results[job]
      case MalformedResult => "malformed"
      case Outcome(result) => if result == "" then "malformed" else result
  }

  predicate Allowed(expectation: Expectation, result: string) {
    match expectation
    case MalformedExpectation => false
    case Required => result == "success"
    case Optional => result == "success" || result == "skipped"
  }

  lemma ResultMeans(results: map<string, JobResult>, job: string)
    ensures ResultFor(results, job) == "success" <==> Ended(results, job, "success")
    ensures ResultFor(results, job) == "skipped" <==> Ended(results, job, "skipped")
  {
    assert "success"[0] == 's' && "skipped"[0] == 's' && "missing"[0] == 'm' && "malformed"[0] == 'm';
  }

  lemma AllowedMeans(expectations: map<string, Expectation>, results: map<string, JobResult>, job: string)
    requires job in expectations
    ensures Allowed(expectations[job], ResultFor(results, job)) <==> JobOk(expectations, results, job)
  {
    hide ResultFor, Ended;
    ResultMeans(results, job);
    assert "success"[1] != "skipped"[1];
  }

  /** Accepts exactly when the conditional jobs are the expected ones, every
      required one succeeded, and no optional one failed. */
  method ValidateAggregate(expectations: map<string, Expectation>, results: map<string, JobResult>, alwaysRequired: seq<string>)
    returns (ok: bool, failures: seq<string>)
    ensures ok <==>
      && expectations.Keys == {"rust-quality", "docs", "metal-compile"}
      && (forall i :: 0 <= i < |alwaysRequired| ==> Ended(results, alwaysRequired[i], "success"))
      && (forall job :: job in expectations ==> JobOk(expectations, results, job))
    ensures expectations.Keys == CONDITIONAL_JOBS ==>
      forall job :: job in failures <==> Rejected(expectations, results, alwaysRequired, job)
    ensures ok ==> failures == []
  {
    hide ResultFor, Ended, Allowed, JobOk;
    failures := [];
    if expectations.Keys != CONDITIONAL_JOBS {
      return false, failures;
    }
    for i := 0 to |alwaysRequired|
      invariant failures == [] <==> forall k :: 0 <= k < i ==> Ended(results, alwaysRequired[k], "success")
      invariant forall job :: job in failures <==> job in alwaysRequired[..i] && !Ended(results, job, "success")
    {
      assert alwaysRequired[..i + 1] == alwaysRequired[..i] + [alwaysRequired[i]];
      ResultMeans(results, alwaysRequired[i]);
      if ResultFor(results, alwaysRequired[i]) != "success" {
        failures := failures + [alwaysRequired[i]];
      }
    }
    assert alwaysRequired[..|alwaysRequired|] == alwaysRequired;
    var left := expectations.Keys;
    ghost var before := failures;
    while left != {}
      invariant left <= expectations.Keys && (before == [] <==> forall i :: 0 <= i < |alwaysRequired| ==> Ended(results, alwaysRequired[i], "success"))
      invariant forall job :: job in failures <==>
        (job in alwaysRequired && !Ended(results, job, "success")) || (job in expectations && job !in left && !JobOk(expectations, results, job))
      invariant failures == [] <==> before == [] && forall job :: job in expectations && job !in left ==> JobOk(expectations, results, job)
      decreases |left|
    {
      var job :| job in left;
      left := left - {job};
      AllowedMeans(expectations, results, job);
      if !Allowed(expectations[job], ResultFor(results, job)) {
        failures := failures + [job];
      }
    }
    ok := failures == [];
  }

  /** The aggregate over a plan passes exactly if every job the plan asks for has
      succeeded and every other one has or was skipped. */
  lemma PlanPassesExactly(plan: Plan, results: map<string, JobResult>)
    ensures Expectations(plan).Keys == {"rust-quality", "docs", "metal-compile"}
    ensures (forall job :: job in Expectations(plan) ==> JobOk(Expectations(plan), results, job)) <==>
      && (Ended(results, "rust-quality", "success") || (!plan.flags.rust && Ended(results, "rust-quality", "skipped")))
      && (Ended(results, "docs", "success") || (!plan.flags.docs && Ended(results, "docs", "skipped")))
      && (Ended(results, "metal-compile", "success") || (!plan.metalCompile && Ended(results, "metal-compile", "skipped")))
  {
    hide Ended;
    var e := Expectations(plan);
    assert "rust-quality" in e && "docs" in e && "metal-compile" in e;
  }
}
