/** The transitive dependencies of a set of root packages. */
module DependencyClosure {
  import opened Options

  /** A set of known packages that contains the roots and every dependency of its
      members. */
  ghost predicate IsClosed(dependencies: map<string, set<string>>, roots: seq<string>, s: set<string>) {
    && (forall r :: r in roots ==> r in s)
    && (forall p :: p in s ==> p in dependencies && dependencies[p] <= s)
  }

  /** Everything seen so far lies in every closed set. */
  ghost predicate Needed(dependencies: map<string, set<string>>, roots: seq<string>, closure: set<string>, pending: multiset<string>) {
    forall s :: IsClosed(dependencies, roots, s) ==> closure <= s && forall p :: p in pending ==> p in s
  }

  /** Members have their dependencies in the closure or still pending. */
  ghost predicate Covered(dependencies: map<string, set<string>>, roots: seq<string>, closure: set<string>, pending: multiset<string>) {
    && (forall r :: r in roots ==> r in closure || r in pending)
    && (forall p :: p in closure ==> p in dependencies && forall d :: d in dependencies[p] ==> d in closure || d in pending)
  }

  lemma StepKeepsCovered(dependencies: map<string, set<string>>, roots: seq<string>, closure: set<string>, pending: multiset<string>, p: string)
    requires p in pending && Covered(dependencies, roots, closure, pending)
    ensures p in closure ==> Covered(dependencies, roots, closure, pending - multiset{p})
    ensures p in dependencies ==>
      Covered(dependencies, roots, closure + {p}, pending - multiset{p} + multiset(dependencies[p] - (closure + {p})))
  {
  }

  lemma StepKeepsNeeded(dependencies: map<string, set<string>>, roots: seq<string>, closure: set<string>, pending: multiset<string>, p: string)
    requires p in pending && p in dependencies && Needed(dependencies, roots, closure, pending)
    ensures Needed(dependencies, roots, closure + {p}, pending - multiset{p} + multiset(dependencies[p] - (closure + {p})))
  {
  }

  /** The worklist, popped in any order: it ends, with the least closed set, and
      fails exactly when there is no closed set at all. */
  method Closure(roots: seq<string>, dependencies: map<string, set<string>>) returns (r: Option<set<string>>)
    ensures r.Some? <==> exists s :: IsClosed(dependencies, roots, s)
    ensures r.Some? ==> IsClosed(dependencies, roots, r.value)
    ensures r.Some? ==> forall s :: IsClosed(dependencies, roots, s) ==> r.value <= s
  {
    var pending := multiset(roots);
    var closure: set<string> := {};
    while pending != multiset{}
      invariant closure <= dependencies.Keys
      invariant Needed(dependencies, roots, closure, pending) && Covered(dependencies, roots, closure, pending)
      decreases |dependencies.Keys - closure|, |pending|
    {
      var package :| package in pending;
      StepKeepsCovered(dependencies, roots, closure, pending, package);
      if package in closure {
        pending := pending - multiset{package};
        continue;
      }
      if package !in dependencies {
        return None;
      }
      StepKeepsNeeded(dependencies, roots, closure, pending, package);
      pending := pending - multiset{package};
      assert dependencies.Keys - (closure + {package}) == (dependencies.Keys - closure) - {package};
      closure := closure + {package};
      pending := pending + multiset(dependencies[package] - closure);
    }
    assert IsClosed(dependencies, roots, closure);
    return Some(closure);
  }

  /** Where dependencies are known packages, as in a workspace graph, only a
      missing root can fail it. */
  lemma OnlyMissingRootsFail(roots: seq<string>, dependencies: map<string, set<string>>)
    requires forall p :: p in dependencies ==> dependencies[p] <= dependencies.Keys
    ensures (exists s :: IsClosed(dependencies, roots, s)) <==> forall r :: r in roots ==> r in dependencies
  {
    if forall r :: r in roots ==> r in dependencies {
      assert IsClosed(dependencies, roots, dependencies.Keys);
    }
  }

  /** `chain` leads along dependencies from its first package to its last. */
  predicate IsChain(dependencies: map<string, set<string>>, chain: seq<string>) {
    chain != [] && forall i :: 0 <= i < |chain| - 1 ==> chain[i] in dependencies && chain[i + 1] in dependencies[chain[i]]
  }

  /** A closed set contains everything a chain of dependencies reaches. */
  lemma {:induction false} ChainStaysInside(dependencies: map<string, set<string>>, roots: seq<string>, s: set<string>, chain: seq<string>)
    requires IsClosed(dependencies, roots, s) && IsChain(dependencies, chain) && chain[0] in roots
    ensures chain[|chain| - 1] in s
    decreases |chain|
  {
    if |chain| > 1 {
      var init := chain[..|chain| - 1];
      assert IsChain(dependencies, init) by {
        forall i | 0 <= i < |init| - 1 ensures init[i] in dependencies && init[i + 1] in dependencies[init[i]] {
          assert chain[i + 1] in dependencies[chain[i]];
        }
      }
      ChainStaysInside(dependencies, roots, s, init);
      assert chain[|chain| - 2 + 1] in dependencies[chain[|chain| - 2]];
    }
  }

  ghost predicate Reached(dependencies: map<string, set<string>>, roots: seq<string>, package: string) {
    exists chain :: IsChain(dependencies, chain) && chain[0] in roots && chain[|chain| - 1] == package
  }

  lemma ReachesDependency(dependencies: map<string, set<string>>, roots: seq<string>, p: string, d: string)
    requires Reached(dependencies, roots, p) && p in dependencies && d in dependencies[p]
    ensures Reached(dependencies, roots, d)
  {
    var chain :| IsChain(dependencies, chain) && chain[0] in roots && chain[|chain| - 1] == p;
    var longer := chain + [d];
    forall i | 0 <= i < |longer| - 1 ensures longer[i] in dependencies && longer[i + 1] in dependencies[longer[i]] {
      assert longer[i] == chain[i];
      assert i < |chain| - 1 ==> chain[i + 1] in dependencies[chain[i]];
    }
    assert IsChain(dependencies, longer) && longer[0] == chain[0];
  }

  /** The least closed set is what chains of dependencies reach. */
  lemma ClosureIsReached(dependencies: map<string, set<string>>, roots: seq<string>, s: set<string>, package: string)
    requires IsClosed(dependencies, roots, s) && forall t :: IsClosed(dependencies, roots, t) ==> s <= t
    ensures package in s <==> Reached(dependencies, roots, package)
  {
    if Reached(dependencies, roots, package) {
      var chain :| IsChain(dependencies, chain) && chain[0] in roots && chain[|chain| - 1] == package;
      ChainStaysInside(dependencies, roots, s, chain);
    }
    var reached := set p | p in s && Reached(dependencies, roots, p);
    forall r | r in roots ensures r in reached {
      assert IsChain(dependencies, [r]);
    }
    forall p | p in reached ensures p in dependencies && dependencies[p] <= reached {
      forall d | d in dependencies[p] ensures d in reached {
        ReachesDependency(dependencies, roots, p, d);
      }
    }
    assert IsClosed(dependencies, roots, reached);
  }
}
