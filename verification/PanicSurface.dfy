/** Choosing the packages and features the panic-surface gate looks at, and why
    a check of direct activations keeps development features out of reach. */
module PanicSurface {
  import opened Options
  import opened ReleaseGraph

  datatype Dep = Dep(name: string, rename: Option<string>)

  /** A package as the metadata lists it; `library` says whether one of its
      targets has a library crate type. */
  datatype Crate = Crate(id: string, name: string, publish: Option<seq<string>>, library: bool, deps: seq<Dep>, features: map<string, seq<string>>)

  /** A feature of a package. */
  type Feature = (string, string)

  datatype Selection = Selection(packages: set<string>, features: set<Feature>)

  datatype SelectionError =
    | NoMembers | DuplicateRegistry | DuplicateMember(id: string) | MissingPackage(id: string) | DuplicateLibrary(name: string)
    | DuplicateDependencyKey(package: string, key: string) | UnknownDependency(package: string, feature: string, dependency: string)
    | EnablesDevOnly(from: Feature, to: Feature) | NoLibraries | StaleRegistry(entries: set<Feature>)

  // ----- what features turn on -----

  /** The dependency goes by `key` in the package that has it. */
  predicate GoesBy(d: Dep, key: string) {
    match d.rename
    case Some(other) => key == other
    case None => key == d.name
  }

  predicate EndsInMark(s: string) {
    s != "" && s[|s| - 1] == '?'
  }

  /** `key/feature`, or `key?/feature`. */
  predicate NamesFeature(activation: string, key: string, feature: string) {
    && '/' !in key
    && (activation == key + "?/" + feature || (activation == key + "/" + feature && !EndsInMark(key)))
  }

  /** The activation, in package `c`, turns on feature `b`: one of a dependency if
      there is a slash, of the package itself if there is none; `dep:` turns on no
      feature. */
  ghost predicate TurnsOn(c: Crate, activation: string, b: Feature) {
    && !("dep:" <= activation)
    && if '/' !in activation then b == (c.name, activation)
       else exists i, key :: 0 <= i < |c.deps| && GoesBy(c.deps[i], key) && b.0 == c.deps[i].name && NamesFeature(activation, key, b.1)
  }

  /** What stands before a slash is a dependency. */
  ghost predicate Resolves(c: Crate, activation: string) {
    "dep:" <= activation || '/' !in activation || exists b :: TurnsOn(c, activation, b)
  }

  /** No feature outside the registry turns on one inside it directly. */
  ghost predicate CrateOk(c: Crate, devOnly: set<Feature>) {
    && KeysAgree(c.deps)
    && forall f, k :: f in c.features && (c.name, f) !in devOnly && 0 <= k < |c.features[f]| ==>
         Resolves(c, c.features[f][k]) && forall b :: TurnsOn(c, c.features[f][k], b) ==> b !in devOnly
  }

  // ----- dependencies and activations -----

  function KeyOf(d: Dep): string {
    if d.rename.Some? then d.rename.value else d.name
  }

  /** No key stands for two packages. */
  predicate KeysAgree(deps: seq<Dep>) {
    forall i, j :: 0 <= i < j < |deps| && KeyOf(deps[i]) == KeyOf(deps[j]) ==> deps[i].name == deps[j].name
  }

  predicate IsKeyMap(deps: seq<Dep>, m: map<string, string>) {
    && (forall i :: 0 <= i < |deps| ==> KeyOf(deps[i]) in m && m[KeyOf(deps[i])] == deps[i].name)
    && (forall k :: k in m ==> exists i :: 0 <= i < |deps| && KeyOf(deps[i]) == k)
  }

  /** One more dependency agrees with the others if it agrees with their map. */
  lemma AgreementGrows(deps: seq<Dep>, m: map<string, string>, d: Dep)
    requires KeysAgree(deps) && IsKeyMap(deps, m)
    ensures KeysAgree(deps + [d]) <==> (KeyOf(d) in m ==> m[KeyOf(d)] == d.name)
  {
    var all := deps + [d];
    if KeyOf(d) in m {
      var j :| 0 <= j < |deps| && KeyOf(deps[j]) == KeyOf(d);
      assert all[j] == deps[j] && all[|deps|] == d;
    }
    if KeyOf(d) in m ==> m[KeyOf(d)] == d.name {
      forall i, j | 0 <= i < j < |all| && KeyOf(all[i]) == KeyOf(all[j]) ensures all[i].name == all[j].name {
        assert all[i] == deps[i];
        assert j < |deps| ==> all[j] == deps[j];
      }
    }
  }

  lemma KeyMapGrows(deps: seq<Dep>, m: map<string, string>, d: Dep)
    requires IsKeyMap(deps, m) && (KeyOf(d) in m ==> m[KeyOf(d)] == d.name)
    ensures IsKeyMap(deps + [d], m[KeyOf(d) := d.name])
  {
    var all, n := deps + [d], m[KeyOf(d) := d.name];
    forall i | 0 <= i < |all| ensures KeyOf(all[i]) in n && n[KeyOf(all[i])] == all[i].name {
      assert i < |deps| ==> all[i] == deps[i];
    }
    forall k | k in n ensures exists i :: 0 <= i < |all| && KeyOf(all[i]) == k {
      if k == KeyOf(d) {
        assert KeyOf(all[|deps|]) == k;
      } else {
        var i :| 0 <= i < |deps| && KeyOf(deps[i]) == k;
        assert KeyOf(all[i]) == k;
      }
    }
  }

  lemma KeysDisagree(deps: seq<Dep>, i: nat)
    requires i <= |deps| && !KeysAgree(deps[..i])
    ensures !KeysAgree(deps)
  {
  }

  method DependencyPackages(package: string, deps: seq<Dep>) returns (r: Result<map<string, string>, SelectionError>)
    ensures r.Ok? <==> KeysAgree(deps)
    ensures r.Ok? ==> IsKeyMap(deps, r.value)
    ensures r.Err? ==> r.error.DuplicateDependencyKey? && r.error.package == package
    ensures r.Err? ==>
      exists i, j :: 0 <= i < j < |deps| && KeyOf(deps[i]) == KeyOf(deps[j]) == r.error.key && deps[i].name != deps[j].name
  {
    var m: map<string, string> := map[];
    for i := 0 to |deps|
      invariant KeysAgree(deps[..i]) && IsKeyMap(deps[..i], m)
    {
      hide KeysAgree, IsKeyMap;
      var key := KeyOf(deps[i]);
      assert deps[..i + 1] == deps[..i] + [deps[i]];
      AgreementGrows(deps[..i], m, deps[i]);
      if key in m && m[key] != deps[i].name {
        KeysDisagree(deps, i + 1);
        return Err(DuplicateDependencyKey(package, key));
      }
      KeyMapGrows(deps[..i], m, deps[i]);
      m := m[key := deps[i].name];
    }
    assert deps[..|deps|] == deps;
    return Ok(m);
  }

  function SlashAt(s: string): (i: nat)
    ensures i <= |s| && (i < |s| ==> s[i] == '/')
  {
    if s == "" || s[0] == '/' then 0 else 1 + SlashAt(s[1..])
  }

  function WithoutMark(dependency: string): string {
    if dependency != "" && dependency[|dependency| - 1] == '?' then dependency[..|dependency| - 1] else dependency
  }

  /** What an activation turns on: nothing for `dep:`, a dependency's feature
      after a slash, otherwise a feature of the package itself. */
  function ActivatedFeature(package: string, feature: string, activation: string, deps: map<string, string>): Result<Option<Feature>, SelectionError> {
    if "dep:" <= activation then Ok(None)
    else
      var slash := SlashAt(activation);
      if slash < |activation| then
        var dependency := WithoutMark(activation[..slash]);
        if dependency in deps then Ok(Some((deps[dependency], activation[slash + 1..])))
        else Err(UnknownDependency(package, feature, dependency))
      else Ok(Some((package, activation)))
  }

  /** The activation resolves, and not to a development feature. */
  predicate ActivationOk(c: Crate, feature: string, activation: string, deps: map<string, string>, devOnly: set<Feature>) {
    var r := ActivatedFeature(c.name, feature, activation, deps);
    r.Ok? && (r.value.Some? ==> r.value.value !in devOnly)
  }

  predicate FeatureOk(c: Crate, feature: string, deps: map<string, string>, devOnly: set<Feature>)
    requires feature in c.features
  {
    (c.name, feature) in devOnly || forall i :: 0 <= i < |c.features[feature]| ==> ActivationOk(c, feature, c.features[feature][i], deps, devOnly)
  }

  function KeysOf(c: Crate): set<Feature> {
    set f | f in c.features :: (c.name, f)
  }

  lemma {:induction false} SlashIsFirst(s: string)
    ensures '/' !in s[..SlashAt(s)] && (SlashAt(s) == |s| <==> '/' !in s)
  {
    if s != "" && s[0] != '/' {
      SlashIsFirst(s[1..]);
      assert s[..SlashAt(s)] == [s[0]] + s[1..][..SlashAt(s[1..])];
    }
  }

  lemma {:induction false} SlashBehind(name: string, rest: string)
    requires rest != "" && rest[0] == '/' && '/' !in name
    ensures SlashAt(name + rest) == |name|
  {
    if name == "" {
      assert name + rest == rest;
    } else {
      SlashBehind(name[1..], rest);
      assert (name + rest)[1..] == name[1..] + rest;
    }
  }

  lemma MarkedName(key: string, feature: string)
    ensures key + "?/" + feature == (key + "?") + "/" + feature
    ensures WithoutMark(key + "?") == key
  {
    assert (key + "?")[..|key|] == key;
  }

  lemma CutAtSlash(name: string, feature: string)
    requires '/' !in name
    ensures var activation := name + "/" + feature;
      SlashAt(activation) == |name| < |activation| && activation[..|name|] == name && activation[|name| + 1..] == feature
  {
    SlashBehind(name, "/" + feature);
    assert name + "/" + feature == name + ("/" + feature);
  }

  /** A name before a slash is cut out of the activation as it is, less a mark. */
  lemma NameIsCutOut(activation: string, key: string, feature: string)
    requires NamesFeature(activation, key, feature)
    ensures var slash := SlashAt(activation);
      slash < |activation| && WithoutMark(activation[..slash]) == key && activation[slash + 1..] == feature
  {
    hide SlashAt;
    MarkedName(key, feature);
    CutAtSlash(key, feature);
    if activation == key + "?/" + feature {
      hide WithoutMark;
      CutAtSlash(key + "?", feature);
    }
  }

  lemma UnmarkedName(name: string)
    ensures name == if EndsInMark(name) then WithoutMark(name) + "?" else WithoutMark(name)
  {
  }

  lemma NamesWithoutMark(name: string, feature: string)
    requires '/' !in name
    ensures NamesFeature(name + "/" + feature, WithoutMark(name), feature)
  {
    UnmarkedName(name);
    MarkedName(WithoutMark(name), feature);
    if EndsInMark(name) {
      assert forall i :: 0 <= i < |WithoutMark(name)| ==> WithoutMark(name)[i] == name[i];
      hide WithoutMark, EndsInMark;
    }
  }

  lemma SplitAtSlash(activation: string, slash: nat)
    requires slash < |activation| && activation[slash] == '/'
    ensures activation == activation[..slash] + "/" + activation[slash + 1..]
  {
  }

  lemma CutOutIsName(activation: string)
    requires SlashAt(activation) < |activation|
    ensures var slash := SlashAt(activation);
      NamesFeature(activation, WithoutMark(activation[..slash]), activation[slash + 1..])
  {
    SlashIsFirst(activation);
    hide WithoutMark, NamesFeature, SlashAt;
    var slash := SlashAt(activation);
    SplitAtSlash(activation, slash);
    NamesWithoutMark(activation[..slash], activation[slash + 1..]);
  }

  /** What the code makes of an activation is what it turns on. */
  lemma ActivationMeans(c: Crate, feature: string, activation: string, deps: map<string, string>)
    requires KeysAgree(c.deps) && IsKeyMap(c.deps, deps)
    ensures var r := ActivatedFeature(c.name, feature, activation, deps);
      && (r.Ok? <==> Resolves(c, activation))
      && (forall b :: r == Ok(Some(b)) <==> TurnsOn(c, activation, b))
  {
    hide KeysAgree;
    var r := ActivatedFeature(c.name, feature, activation, deps);
    SlashIsFirst(activation);
    hide SlashAt;
    if !("dep:" <= activation) && '/' in activation {
      CutOutIsName(activation);
      var slash := SlashAt(activation);
      var dependency := WithoutMark(activation[..slash]);
      hide NamesFeature, WithoutMark;
      forall b ensures r == Ok(Some(b)) <==> TurnsOn(c, activation, b) {
        if r == Ok(Some(b)) {
          var i :| 0 <= i < |c.deps| && KeyOf(c.deps[i]) == dependency;
          assert GoesBy(c.deps[i], dependency) && NamesFeature(activation, dependency, b.1);
        }
        if TurnsOn(c, activation, b) {
          var i, key :| 0 <= i < |c.deps| && GoesBy(c.deps[i], key) && b.0 == c.deps[i].name && NamesFeature(activation, key, b.1);
          NameIsCutOut(activation, key, b.1);
          assert KeyOf(c.deps[i]) == key;
        }
      }
      if r.Ok? {
        assert TurnsOn(c, activation, r.value.value);
      }
    } else if !("dep:" <= activation) {
      assert TurnsOn(c, activation, (c.name, activation));
    }
  }

  /** Checks the activations of one feature. */
  method CheckActivations(c: Crate, feature: string, deps: map<string, string>, devOnly: set<Feature>) returns (error: Option<SelectionError>)
    requires feature in c.features
    ensures error == None <==> forall i :: 0 <= i < |c.features[feature]| ==> ActivationOk(c, feature, c.features[feature][i], deps, devOnly)
    ensures error.Some? && error.value.EnablesDevOnly? ==> error.value.from == (c.name, feature) && error.value.to in devOnly
    ensures error.Some? && !error.value.EnablesDevOnly? ==> error.value.UnknownDependency? && error.value.dependency !in deps
  {
    var activations := c.features[feature];
    for i := 0 to |activations|
      invariant forall j :: 0 <= j < i ==> ActivationOk(c, feature, activations[j], deps, devOnly)
    {
      var activated := ActivatedFeature(c.name, feature, activations[i], deps);
      if activated.Err? {
        return Some(activated.error);
      }
      if activated.value.Some? && activated.value.value in devOnly {
        return Some(EnablesDevOnly((c.name, feature), activated.value.value));
      }
    }
    return None;
  }

  /** What may be wrong with one library. */
  predicate IsLibraryError(e: SelectionError) {
    e.DuplicateLibrary? || e.DuplicateDependencyKey? || e.UnknownDependency? || e.EnablesDevOnly?
  }

  /** The features of one package: registered development features are ticked
      off, all others checked and selected. */
  method CollectProductionFeatures(c: Crate, deps: map<string, string>, devOnly: set<Feature>, remaining: set<Feature>, selected: set<Feature>)
    returns (error: Option<SelectionError>, remaining': set<Feature>, selected': set<Feature>)
    requires forall f :: f in c.features ==> ((c.name, f) in remaining <==> (c.name, f) in devOnly)
    ensures error == None <==> forall f :: f in c.features ==> FeatureOk(c, f, deps, devOnly)
    ensures error.Some? ==> error.value.UnknownDependency? || error.value.EnablesDevOnly?
    ensures error == None ==> remaining' == remaining - KeysOf(c) && selected' == selected + (KeysOf(c) - devOnly)
  {
    remaining', selected' := remaining, selected;
    var left := c.features.Keys;
    while left != {}
      invariant left <= c.features.Keys
      invariant forall f :: f in c.features && f !in left ==> FeatureOk(c, f, deps, devOnly)
      invariant remaining' == remaining - (set f | f in c.features && f !in left :: (c.name, f))
      invariant selected' == selected + ((set f | f in c.features && f !in left :: (c.name, f)) - devOnly)
      decreases |left|
    {
      var feature :| feature in left;
      var key := (c.name, feature);
      assert (set f | f in c.features && f !in left - {feature} :: (c.name, f)) == (set f | f in c.features && f !in left :: (c.name, f)) + {key};
      left := left - {feature};
      if key in remaining' {
        remaining' := remaining' - {key};
        continue;
      }
      error := CheckActivations(c, feature, deps, devOnly);
      if error.Some? {
        return;
      }
      selected' := selected' + {key};
    }
    assert (set f | f in c.features && f !in left :: (c.name, f)) == KeysOf(c);
    error := None;
  }

  // ----- selection -----

  predicate PublishableLibrary(c: Crate) {
    c.publish != Some([]) && c.library
  }

  function Find(crates: seq<Crate>, id: string): Option<Crate> {
    if crates == [] then None else if crates[0].id == id then Some(crates[0]) else Find(crates[1..], id)
  }

  predicate AllFound(crates: seq<Crate>, members: seq<string>) {
    forall i :: 0 <= i < |members| ==> Find(crates, members[i]).Some?
  }

  /** The publishable library packages of the workspace, in order. */
  function Libraries(crates: seq<Crate>, members: seq<string>): seq<Crate>
    requires AllFound(crates, members)
  {
    if members == [] then []
    else
      var before := Libraries(crates, members[..|members| - 1]);
      var last := Find(crates, members[|members| - 1]).value;
      if PublishableLibrary(last) then before + [last] else before
  }

  function NamesOf(libs: seq<Crate>): set<string> {
    set i | 0 <= i < |libs| :: libs[i].name
  }

  predicate NamesDistinct(libs: seq<Crate>) {
    forall i, j :: 0 <= i < j < |libs| ==> libs[i].name != libs[j].name
  }

  function AllKeys(libs: seq<Crate>): set<Feature> {
    set i, f | 0 <= i < |libs| && f in libs[i].features :: (libs[i].name, f)
  }

  ghost predicate LibrariesOk(libs: seq<Crate>, devOnly: set<Feature>) {
    NamesDistinct(libs) && forall i :: 0 <= i < |libs| ==> CrateOk(libs[i], devOnly)
  }

  /** When a selection is made. */
  ghost predicate Selectable(crates: seq<Crate>, members: seq<string>, registry: seq<Feature>) {
    && members != [] && Distinct(members) && AllFound(crates, members)
    && (forall i, j :: 0 <= i < j < |registry| ==> registry[i] != registry[j])
    && var devOnly := set f | f in registry;
       var libs := Libraries(crates, members);
       libs != [] && LibrariesOk(libs, devOnly) && devOnly <= AllKeys(libs)
  }

  lemma {:induction false} LibrariesPrefix(crates: seq<Crate>, members: seq<string>, i: nat)
    requires AllFound(crates, members) && i <= |members|
    ensures AllFound(crates, members[..i]) && Libraries(crates, members[..i]) <= Libraries(crates, members)
    decreases |members|
  {
    if i < |members| {
      var init := members[..|members| - 1];
      LibrariesPrefix(crates, init, i);
      assert init[..i] == members[..i];
    } else {
      assert members[..i] == members;
    }
  }

  /** The library found at member `i` stays where it is in the whole list. */
  lemma LibraryStays(crates: seq<Crate>, members: seq<string>, i: nat, libs: seq<Crate>, c: Crate)
    requires i < |members| && AllFound(crates, members)
    requires AllFound(crates, members[..i]) && libs == Libraries(crates, members[..i])
    requires Find(crates, members[i]) == Some(c) && PublishableLibrary(c)
    ensures libs + [c] <= Libraries(crates, members)
  {
    LibrariesPrefix(crates, members, i + 1);
    assert members[..i + 1][..i] == members[..i];
  }

  lemma SameName(crates: seq<Crate>, members: seq<string>, i: nat, devOnly: set<Feature>, libs: seq<Crate>, c: Crate)
    requires i < |members| && AllFound(crates, members[..i]) && libs == Libraries(crates, members[..i])
    requires Find(crates, members[i]) == Some(c) && PublishableLibrary(c)
    requires exists k :: 0 <= k < |libs| && libs[k].name == c.name
    ensures AllFound(crates, members) ==> !LibrariesOk(Libraries(crates, members), devOnly)
  {
    if AllFound(crates, members) {
      LibraryStays(crates, members, i, libs, c);
      var all := Libraries(crates, members);
      var k :| 0 <= k < |libs| && libs[k].name == c.name;
      assert all[..|libs| + 1] == libs + [c];
      assert all[k] == libs[k] && all[|libs|] == c;
    }
  }

  lemma BadLibrary(crates: seq<Crate>, members: seq<string>, i: nat, devOnly: set<Feature>, libs: seq<Crate>, c: Crate)
    requires i < |members| && AllFound(crates, members[..i]) && libs == Libraries(crates, members[..i])
    requires Find(crates, members[i]) == Some(c) && PublishableLibrary(c) && !CrateOk(c, devOnly)
    ensures AllFound(crates, members) ==> !LibrariesOk(Libraries(crates, members), devOnly)
  {
    if AllFound(crates, members) {
      LibraryStays(crates, members, i, libs, c);
      var all := Libraries(crates, members);
      assert all[..|libs| + 1] == libs + [c];
      assert all[|libs|] == c;
    }
  }

  /** The keys of a further package are new. */
  lemma NewKeys(libs: seq<Crate>, c: Crate)
    requires forall k :: 0 <= k < |libs| ==> libs[k].name != c.name
    ensures AllKeys(libs + [c]) == AllKeys(libs) + KeysOf(c) && AllKeys(libs) * KeysOf(c) == {}
  {
    var all := libs + [c];
    forall key ensures key in AllKeys(all) <==> key in AllKeys(libs) + KeysOf(c) {
      if key in AllKeys(all) {
        var i, f :| 0 <= i < |all| && f in all[i].features && key == (all[i].name, f);
        if i < |libs| {
          assert all[i] == libs[i];
        }
      }
      if key in AllKeys(libs) {
        var i, f :| 0 <= i < |libs| && f in libs[i].features && key == (libs[i].name, f);
        assert all[i] == libs[i];
      }
      if key in KeysOf(c) {
        assert all[|libs|] == c;
      }
    }
  }

  /** Checking every activation decides whether the package is in order. */
  lemma CrateChecked(c: Crate, deps: map<string, string>, devOnly: set<Feature>)
    requires KeysAgree(c.deps) && IsKeyMap(c.deps, deps)
    ensures CrateOk(c, devOnly) <==> forall f :: f in c.features ==> FeatureOk(c, f, deps, devOnly)
  {
    hide KeysAgree, IsKeyMap, ActivatedFeature, TurnsOn, Resolves;
    forall f, k | f in c.features && 0 <= k < |c.features[f]|
      ensures ActivationOk(c, f, c.features[f][k], deps, devOnly)
        <==> Resolves(c, c.features[f][k]) && forall b :: TurnsOn(c, c.features[f][k], b) ==> b !in devOnly
    {
      ActivationMeans(c, f, c.features[f][k], deps);
    }
  }

  lemma LibrariesOkGrow(libs: seq<Crate>, c: Crate, devOnly: set<Feature>)
    requires LibrariesOk(libs, devOnly) && CrateOk(c, devOnly) && forall k :: 0 <= k < |libs| ==> libs[k].name != c.name
    ensures LibrariesOk(libs + [c], devOnly)
  {
  }

  /** The packages met so far, and what has been made of their features. */
  ghost predicate Progress(libs: seq<Crate>, devOnly: set<Feature>, names: set<string>, remaining: set<Feature>, features: set<Feature>) {
    && LibrariesOk(libs, devOnly)
    && names == NamesOf(libs)
    && remaining == devOnly - AllKeys(libs) && features == AllKeys(libs) - devOnly
  }

  /** Takes one more library package. */
  method AddLibrary(ghost libs: seq<Crate>, c: Crate, devOnly: set<Feature>, names: set<string>, remaining: set<Feature>, features: set<Feature>)
    returns (error: Option<SelectionError>, names': set<string>, remaining': set<Feature>, features': set<Feature>)
    requires Progress(libs, devOnly, names, remaining, features)
    ensures error == None <==> c.name !in names && CrateOk(c, devOnly)
    ensures error.Some? ==> IsLibraryError(error.value) && (error.value.DuplicateLibrary? <==> c.name in names)
    ensures error == None ==> Progress(libs + [c], devOnly, names', remaining', features')
  {
    names', remaining', features' := names, remaining, features;
    if c.name in names {
      return Some(DuplicateLibrary(c.name)), names', remaining', features';
    }
    var deps := DependencyPackages(c.name, c.deps);
    if deps.Err? {
      return Some(deps.error), names', remaining', features';
    }
    assert forall k :: 0 <= k < |libs| ==> libs[k].name in names;
    NewKeys(libs, c);
    assert forall f :: f in c.features ==> (c.name, f) in KeysOf(c);
    CrateChecked(c, deps.value, devOnly);
    error, remaining', features' := CollectProductionFeatures(c, deps.value, devOnly, remaining, features);
    if error == None {
      LibrariesOkGrow(libs, c, devOnly);
      names' := names + {c.name};
      NamesGrow(libs, c);
    }
  }

  lemma NamesGrow(libs: seq<Crate>, c: Crate)
    ensures NamesOf(libs + [c]) == NamesOf(libs) + {c.name}
  {
    var all := libs + [c];
    forall x ensures x in NamesOf(all) <==> x in NamesOf(libs) + {c.name} {
      if x in NamesOf(libs) {
        var k :| 0 <= k < |libs| && libs[k].name == x;
        assert all[k] == libs[k];
      }
      if x == c.name {
        assert all[|libs|] == c;
      }
    }
  }

  lemma NamesEmpty(libs: seq<Crate>)
    ensures NamesOf(libs) == {} <==> libs == []
  {
    if libs != [] {
      assert libs[0].name in NamesOf(libs);
    }
  }

  /** Selection succeeds exactly when the workspace is in order and no feature
      outside the registry turns on one inside it directly; it then selects all
      other features of the publishable library packages. */
  method ParsePanicSurfaceSelection(crates: seq<Crate>, members: seq<string>, registry: seq<Feature>) returns (r: Result<Selection, SelectionError>)
    ensures r.Ok? <==> Selectable(crates, members, registry)
    ensures r == Err(NoMembers) <==> members == []
    ensures r == Err(DuplicateRegistry) <==> members != [] && exists i, j :: 0 <= i < j < |registry| && registry[i] == registry[j]
    ensures r.Err? && r.error.DuplicateMember? ==> !Distinct(members)
    ensures r.Err? && r.error.MissingPackage? ==> r.error.id in members && Find(crates, r.error.id) == None
    ensures r == Err(NoLibraries) ==> AllFound(crates, members) && Libraries(crates, members) == []
    ensures r.Err? && r.error.StaleRegistry? ==>
      AllFound(crates, members) && r.error.entries == (set f | f in registry) - AllKeys(Libraries(crates, members)) != {}
    ensures r.Ok? ==> var libs := Libraries(crates, members);
      && r.value.packages == NamesOf(libs)
      && r.value.features == AllKeys(libs) - (set f | f in registry)
  {
    hide CrateOk, KeysOf;
    if members == [] {
      return Err(NoMembers);
    }
    var devOnly := set f | f in registry;
    if exists i, j :: 0 <= i < j < |registry| && registry[i] == registry[j] {
      return Err(DuplicateRegistry);
    }
    var names: set<string>, remaining: set<Feature>, features: set<Feature> := {}, devOnly, {};
    ghost var libs: seq<Crate> := [];
    for i := 0 to |members|
      invariant Distinct(members[..i]) && AllFound(crates, members[..i]) && libs == Libraries(crates, members[..i])
      invariant Progress(libs, devOnly, names, remaining, features)
    {
      var id := members[i];
      assert members[..i + 1][..i] == members[..i];
      if id in members[..i] {
        return Err(DuplicateMember(id));
      }
      var found := Find(crates, id);
      if found == None {
        return Err(MissingPackage(id));
      }
      assert AllFound(crates, members[..i + 1]);
      var publishable := if found.value.publish == None then true else |found.value.publish.value| > 0;
      assert PublishableLibrary(found.value) <==> publishable && found.value.library;
      if !publishable || !found.value.library {
        continue;
      }
      var error: Option<SelectionError>;
      error, names, remaining, features := AddLibrary(libs, found.value, devOnly, names, remaining, features);
      if error.Some? {
        Refused(crates, members, i, devOnly, libs, found.value);
        return Err(error.value);
      }
      libs := libs + [found.value];
    }
    assert members[..|members|] == members;
    NamesEmpty(libs);
    if names == {} {
      return Err(NoLibraries);
    }
    if remaining != {} {
      return Err(StaleRegistry(remaining));
    }
    return Ok(Selection(names, features));
  }

  lemma Refused(crates: seq<Crate>, members: seq<string>, i: nat, devOnly: set<Feature>, libs: seq<Crate>, c: Crate)
    requires i < |members| && AllFound(crates, members[..i]) && libs == Libraries(crates, members[..i])
    requires Find(crates, members[i]) == Some(c) && PublishableLibrary(c)
    requires !CrateOk(c, devOnly) || exists k :: 0 <= k < |libs| && libs[k].name == c.name
    ensures AllFound(crates, members) ==> !LibrariesOk(Libraries(crates, members), devOnly)
  {
    if !CrateOk(c, devOnly) {
      BadLibrary(crates, members, i, devOnly, libs, c);
    } else {
      SameName(crates, members, i, devOnly, libs, c);
    }
  }

  lemma PlainHead(key: string, rest: string)
    requires !("dep:" <= key) && rest != "" && (rest[0] == '/' || rest[0] == '?')
    ensures !("dep:" <= key + rest)
  {
    assert (key + rest)[|key|] == rest[0];
  }

  lemma LinkNames(key: string, mark: string, feature: string)
    requires '/' !in key && !EndsInMark(key) && !("dep:" <= key) && (mark == "" || mark == "?")
    ensures var activation := key + mark + "/" + feature;
      !("dep:" <= activation) && '/' in activation && NamesFeature(activation, key, feature)
  {
    var activation := key + mark + "/" + feature;
    PlainHead(key, mark + "/" + feature);
    assert activation == key + (mark + "/" + feature);
    assert mark == "?" ==> activation == key + "?/" + feature;
    assert mark == "" ==> activation == key + "/" + feature;
    assert activation[|key| + |mark|] == '/';
  }

  /** A library is refused if a feature of its own that is not registered lists
      one that is, */
  lemma OwnFeatureIsRefused(crates: seq<Crate>, members: seq<string>, registry: seq<Feature>, c: Crate, f: string, g: string)
    requires AllFound(crates, members) && c in Libraries(crates, members)
    requires f in c.features && (c.name, f) !in registry && g in c.features[f] && (c.name, g) in registry
    requires '/' !in g && !("dep:" <= g)
    ensures !Selectable(crates, members, registry)
  {
    hide Libraries;
    assert TurnsOn(c, g, (c.name, g));
  }

  /** or one of a dependency, by the name the dependency goes by, marked or not. */
  lemma DependencyFeatureIsRefused(crates: seq<Crate>, members: seq<string>, registry: seq<Feature>, c: Crate, f: string, d: Dep, mark: string, g: string)
    requires AllFound(crates, members) && c in Libraries(crates, members) && d in c.deps && (mark == "" || mark == "?")
    requires var key := if d.rename.Some? then d.rename.value else d.name;
      && '/' !in key && key != "" && key[|key| - 1] != '?' && !("dep:" <= key)
      && f in c.features && (c.name, f) !in registry && key + mark + "/" + g in c.features[f] && (d.name, g) in registry
    ensures !Selectable(crates, members, registry)
  {
    hide Libraries, NamesFeature;
    var key := if d.rename.Some? then d.rename.value else d.name;
    var activation := key + mark + "/" + g;
    assert GoesBy(d, key);
    LinkNames(key, mark, g);
    assert TurnsOn(c, activation, (d.name, g));
  }

  // ----- reachability -----

  /** In package `c`, turning on feature `a` turns on feature `b` directly. */
  ghost predicate ActivatesIn(c: Crate, a: Feature, b: Feature) {
    c.name == a.0 && a.1 in c.features && exists k :: 0 <= k < |c.features[a.1]| && TurnsOn(c, c.features[a.1][k], b)
  }

  ghost predicate Activates(graph: seq<Crate>, a: Feature, b: Feature) {
    exists c :: c in graph && ActivatesIn(c, a, b)
  }

  /** A chain of activations by packages of `graph` from a selected feature. */
  ghost predicate IsChain(graph: seq<Crate>, libs: seq<Crate>, registry: seq<Feature>, chain: seq<Feature>) {
    && chain != [] && chain[0] in AllKeys(libs) && chain[0] !in registry
    && forall i :: 0 <= i < |chain| - 1 ==> Activates(graph, chain[i], chain[i + 1])
  }

  lemma OneActivation(c: Crate, devOnly: set<Feature>, a: Feature, b: Feature)
    requires CrateOk(c, devOnly) && a !in devOnly && ActivatesIn(c, a, b)
    ensures b !in devOnly
  {
  }

  /** After a successful selection no chain of activations, however long and
      through however many packages, leads from a selected feature to one of the
      registry, provided the packages besides the selected ones pass the check,
      too. */
  lemma {:induction false} NoChainReachesDevOnly(crates: seq<Crate>, members: seq<string>, registry: seq<Feature>, graph: seq<Crate>,
                                                 chain: seq<Feature>, last: nat)
    requires Selectable(crates, members, registry) && last < |chain| && IsChain(graph, Libraries(crates, members), registry, chain)
    requires forall c :: c in graph ==> c in Libraries(crates, members) || CrateOk(c, set f | f in registry)
    ensures chain[last] !in registry
    decreases last
  {
    hide CrateOk, ActivatesIn;
    if last > 0 {
      NoChainReachesDevOnly(crates, members, registry, graph, chain, last - 1);
      assert Activates(graph, chain[last - 1], chain[last - 1 + 1]);
      var c :| c in graph && ActivatesIn(c, chain[last - 1], chain[last]);
      OneActivation(c, (set f | f in registry), chain[last - 1], chain[last]);
    }
  }

  /** A chain of unregistered features whose last step, by a package that was not
      selected, enters the registry. */
  ghost predicate EntersFromOutside(graph: seq<Crate>, libs: seq<Crate>, registry: seq<Feature>, chain: seq<Feature>) {
    && IsChain(graph, libs, registry, chain) && |chain| >= 2
    && (forall i :: 0 <= i < |chain| - 1 ==> chain[i] !in registry) && chain[|chain| - 1] in registry
    && exists c :: c in graph && c !in libs && ActivatesIn(c, chain[|chain| - 2], chain[|chain| - 1])
  }

  ghost predicate ReachesRegistry(graph: seq<Crate>, libs: seq<Crate>, registry: seq<Feature>, chain: seq<Feature>) {
    IsChain(graph, libs, registry, chain) && chain[|chain| - 1] in registry
  }

  lemma ChainPrefix(graph: seq<Crate>, libs: seq<Crate>, registry: seq<Feature>, chain: seq<Feature>, n: nat)
    requires IsChain(graph, libs, registry, chain) && 1 <= n <= |chain|
    ensures IsChain(graph, libs, registry, chain[..n])
  {
    hide Activates;
    forall i | 0 <= i < n - 1 ensures Activates(graph, chain[..n][i], chain[..n][i + 1]) {
      assert Activates(graph, chain[i], chain[i + 1]);
    }
  }

  lemma {:induction false} FirstEntry(graph: seq<Crate>, libs: seq<Crate>, devOnly: set<Feature>, registry: seq<Feature>, chain: seq<Feature>)
    returns (entering: seq<Feature>)
    requires LibrariesOk(libs, devOnly) && devOnly == set f | f in registry
    requires IsChain(graph, libs, registry, chain) && chain[|chain| - 1] in registry
    ensures EntersFromOutside(graph, libs, registry, entering)
    decreases |chain|
  {
    hide CrateOk, ActivatesIn;
    var n := |chain| - 1;
    if i :| 0 <= i < n && chain[i] in registry {
      ChainPrefix(graph, libs, registry, chain, i + 1);
      entering := FirstEntry(graph, libs, devOnly, registry, chain[..i + 1]);
    } else {
      entering := chain;
      assert Activates(graph, chain[n - 1], chain[n - 1 + 1]);
      var c :| c in graph && ActivatesIn(c, chain[n - 1], chain[n]);
      if c in libs {
        OneActivation(c, devOnly, chain[n - 1], chain[n]);
      }
    }
  }

  /** So after a successful selection a selected feature reaches the registry
      through the packages of the metadata exactly if it gets there by a package
      the check never looks at, one that is not published or no library. */
  lemma ChainReachesExactly(crates: seq<Crate>, members: seq<string>, registry: seq<Feature>)
    requires Selectable(crates, members, registry)
    ensures var libs := Libraries(crates, members);
      (exists chain :: ReachesRegistry(crates, libs, registry, chain)) <==> (exists chain :: EntersFromOutside(crates, libs, registry, chain))
  {
    hide LibrariesOk, Libraries, IsChain;
    var libs, devOnly := Libraries(crates, members), set f | f in registry;
    if chain :| ReachesRegistry(crates, libs, registry, chain) {
      var entering := FirstEntry(crates, libs, devOnly, registry, chain);
    }
    if chain :| EntersFromOutside(crates, libs, registry, chain) {
      assert ReachesRegistry(crates, libs, registry, chain);
    }
  }

  // ----- a selection that a chain passes by -----

  /** A library with one dependency and one feature, which turns on a feature of
      that dependency. */
  function Linking(name: string, publish: Option<seq<string>>, dependency: string, feature: string, target: string): Crate {
    Crate(name, name, publish, true, [Dep(dependency, None)], map[feature := [dependency + "/" + target]])
  }

  /** A library with one feature that turns on nothing. */
  function Plain(name: string, feature: string): Crate {
    Crate(name, name, None, true, [], map[feature := []])
  }

  predicate PlainName(name: string) {
    name != "" && name[0] != 'd' && '/' !in name && !EndsInMark(name)
  }

  lemma LinkResolves(c: Crate, dependency: string, target: string)
    requires PlainName(dependency) && c.deps == [Dep(dependency, None)]
    ensures forall b :: TurnsOn(c, dependency + "/" + target, b) <==> b == (dependency, target)
  {
    var activation := dependency + "/" + target;
    assert activation[0] != "dep:"[0] && '/' in activation;
    assert NamesFeature(activation, dependency, target) && GoesBy(c.deps[0], dependency);
    forall b | TurnsOn(c, activation, b) ensures b == (dependency, target) {
      var i, key :| 0 <= i < |c.deps| && GoesBy(c.deps[i], key) && b.0 == c.deps[i].name && NamesFeature(activation, key, b.1);
      NameIsCutOut(activation, key, b.1);
      NameIsCutOut(activation, dependency, target);
    }
  }

  lemma LinkingIsOk(c: Crate, name: string, publish: Option<seq<string>>, dependency: string, feature: string, target: string, devOnly: set<Feature>)
    requires c == Linking(name, publish, dependency, feature, target) && PlainName(dependency)
    ensures ActivatesIn(c, (name, feature), (dependency, target))
    ensures (dependency, target) !in devOnly ==> CrateOk(c, devOnly)
  {
    LinkResolves(c, dependency, target);
    hide TurnsOn;
    assert c.features[feature][0] == dependency + "/" + target;
    assert TurnsOn(c, c.features[feature][0], (dependency, target));
  }

  lemma PlainIsOk(c: Crate, name: string, feature: string, devOnly: set<Feature>)
    requires c == Plain(name, feature)
    ensures CrateOk(c, devOnly)
  {
  }

  lemma {:induction false} FindAt(crates: seq<Crate>, k: nat)
    requires k < |crates| && forall i, j :: 0 <= i < j < |crates| ==> crates[i].id != crates[j].id
    ensures Find(crates, crates[k].id) == Some(crates[k])
    decreases |crates|
  {
    if k > 0 {
      FindAt(crates[1..], k - 1);
    }
  }

  lemma LibrariesSnoc(crates: seq<Crate>, members: seq<string>, n: nat)
    requires AllFound(crates, members) && n < |members|
    ensures var c := Find(crates, members[n]).value;
      Libraries(crates, members[..n + 1]) == Libraries(crates, members[..n]) + if PublishableLibrary(c) then [c] else []
  {
    assert members[..n + 1][..n] == members[..n];
  }

  lemma LibrariesOfThree(crates: seq<Crate>, members: seq<string>)
    requires |crates| == |members| == 3 && forall i :: 0 <= i < 3 ==> crates[i].id == members[i]
    requires Distinct(members) && PublishableLibrary(crates[0]) && !PublishableLibrary(crates[1]) && PublishableLibrary(crates[2])
    ensures AllFound(crates, members) && Libraries(crates, members) == [crates[0], crates[2]]
  {
    hide Libraries, Find, PublishableLibrary;
    FindAt(crates, 0);
    FindAt(crates, 1);
    FindAt(crates, 2);
    assert Libraries(crates, members[..0]) == [] by {
      NoLibrariesYet(crates, members[..0]);
    }
    LibrariesSnoc(crates, members, 0);
    LibrariesSnoc(crates, members, 1);
    LibrariesSnoc(crates, members, 2);
    assert members[..3] == members;
  }

  lemma NoLibrariesYet(crates: seq<Crate>, members: seq<string>)
    requires members == []
    ensures Libraries(crates, members) == []
  {
  }

  /** Wherever the feature of a library turns on, through an unpublished package,
      a registered feature of another library, the selection succeeds and the
      chain goes unnoticed. */
  lemma ChainPassesBy(app: Crate, aid: Crate, core: Crate, fast: string, more: string, debug: string)
    requires app == Linking(app.name, None, aid.name, fast, more) && aid == Linking(aid.name, Some([]), core.name, more, debug)
    requires core == Plain(core.name, debug) && PlainName(aid.name) && PlainName(core.name)
    requires app.name != aid.name && app.name != core.name && aid.name != core.name
    ensures var crates, members := [app, aid, core], [app.name, aid.name, core.name];
      && Selectable(crates, members, [(core.name, debug)])
      && EntersFromOutside(crates, Libraries(crates, members), [(core.name, debug)],
                           [(app.name, fast), (aid.name, more), (core.name, debug)])
  {
    var crates, members, libs := [app, aid, core], [app.name, aid.name, core.name], [app, core];
    var a, b, c := (app.name, fast), (aid.name, more), (core.name, debug);
    LibrariesOfThree(crates, members);
    LinkingIsOk(app, app.name, None, aid.name, fast, more, {c});
    LinkingIsOk(aid, aid.name, Some([]), core.name, more, debug, {c});
    PlainIsOk(core, core.name, debug, {c});
    KeysOfTwo(app, core, fast, debug);
    assert aid !in libs;
    hide Libraries, CrateOk, ActivatesIn, AllKeys, Linking, Plain, PlainName;
    TwoSelectable(crates, members, app, core, c);
    assert app in crates && aid in crates;
    ThreeStepChain(crates, libs, [c], a, b, c, aid);
  }

  lemma KeysOfTwo(first: Crate, second: Crate, f: string, g: string)
    requires f in first.features && g in second.features
    ensures (first.name, f) in AllKeys([first, second]) && (second.name, g) in AllKeys([first, second])
  {
    var libs := [first, second];
    assert libs[0] == first && libs[1] == second;
  }

  lemma TwoSelectable(crates: seq<Crate>, members: seq<string>, first: Crate, second: Crate, c: Feature)
    requires members != [] && Distinct(members) && AllFound(crates, members) && Libraries(crates, members) == [first, second]
    requires first.name != second.name && CrateOk(first, {c}) && CrateOk(second, {c}) && c in AllKeys([first, second])
    ensures Selectable(crates, members, [c])
  {
    hide Libraries, CrateOk, AllKeys, AllFound, Distinct;
    assert (set f | f in [c]) == {c};
  }

  lemma ThreeStepChain(graph: seq<Crate>, libs: seq<Crate>, registry: seq<Feature>, a: Feature, b: Feature, c: Feature, through: Crate)
    requires a in AllKeys(libs) && a !in registry && b !in registry && c in registry
    requires Activates(graph, a, b) && ActivatesIn(through, b, c) && through in graph && through !in libs
    ensures EntersFromOutside(graph, libs, registry, [a, b, c])
  {
    hide ActivatesIn, AllKeys;
    assert Activates(graph, b, c);
    var chain := [a, b, c];
    assert chain[0] == a && chain[1] == b && chain[2] == c;
  }
}
