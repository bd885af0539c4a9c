/** The per-module build-configuration manager: an ordered, non-empty array
    of configurations with distinct names and one module-level compiler
    options record, with bulk replacement, pruning on module removal and
    persistence through a plain state record. */
module ConfigurationManager {
  import opened Entities
  import opened Validation
  import opened Pruning

  /** The manager of the configurations of module `owner`. */
  datatype Manager = Manager(
    owner: ModuleId,
    configurations: seq<BuildConfiguration>,
    moduleOptions: CompilerOptions)

  /** The persisted form: the configurations as a plain collection and the
      module-level compiler options. */
  datatype State = State(configurations: seq<BuildConfiguration>, moduleOptions: CompilerOptions)

  /** What every operation re-establishes: at least one configuration, and
      no two with the same name. */
  predicate Valid(mgr: Manager) {
    |mgr.configurations| > 0 && DistinctNames(mgr.configurations)
  }

  /** No configuration of `cs` has a dependency pointing into `m`. */
  predicate NoReferenceTo(cs: seq<BuildConfiguration>, m: ModuleId) {
    forall i :: 0 <= i < |cs| ==> FreeOf(cs[i].dependencies, m)
  }

  /** A newly constructed manager: one default configuration and default
      module-level options. */
  function Create(owner: ModuleId): (mgr: Manager)
    ensures Valid(mgr)
    ensures mgr.owner == owner && mgr.configurations == [DefaultConfiguration]
    ensures mgr.moduleOptions == DefaultCompilerOptions
  {
    Manager(owner, [DefaultConfiguration], DefaultCompilerOptions)
  }

  /** `c` with its dependency list pruned of entries pointing into `m`. */
  function PruneConfiguration(c: BuildConfiguration, m: ModuleId): (r: BuildConfiguration)
    ensures r.name == c.name && r.compilerOptions == c.compilerOptions && r.settings == c.settings
    ensures r.dependencies == PruneDependencies(c.dependencies, m)
    ensures FreeOf(r.dependencies, m)
    ensures forall e :: e in r.dependencies <==> e in c.dependencies && !e.References(m)
    ensures IsSubsequence(r.dependencies, c.dependencies)
  {
    PruneContents(c.dependencies, m);
    PruneIsSubsequence(c.dependencies, m);
    c.(dependencies := PruneDependencies(c.dependencies, m))
  }

  /** Removes from every configuration each dependency on a build
      configuration of module `m`. The configurations themselves, their
      order, names and all other fields stay as they are. */
  function RemoveDependenciesOn(mgr: Manager, m: ModuleId): (r: Manager)
    ensures r.owner == mgr.owner && r.moduleOptions == mgr.moduleOptions
    ensures |r.configurations| == |mgr.configurations|
    ensures NamesOf(r.configurations) == NamesOf(mgr.configurations)
    ensures forall i :: 0 <= i < |r.configurations| ==>
              r.configurations[i] == PruneConfiguration(mgr.configurations[i], m)
    ensures NoReferenceTo(r.configurations, m)
    ensures Valid(mgr) ==> Valid(r)
  {
    var cs := seq(|mgr.configurations|, i requires 0 <= i < |mgr.configurations| =>
                PruneConfiguration(mgr.configurations[i], m));
    assert NamesOf(cs) == NamesOf(mgr.configurations);
    mgr.(configurations := cs)
  }

  /** The handler for "module `removed` is about to be removed": the owner's
      own removal is ignored, any other module is pruned from the dependencies. */
  function BeforeModuleRemoved(mgr: Manager, removed: ModuleId): (r: Manager)
    ensures removed == mgr.owner ==> r == mgr
    ensures r.owner == mgr.owner && r.moduleOptions == mgr.moduleOptions
    ensures |r.configurations| == |mgr.configurations|
    ensures removed != mgr.owner ==>
              forall i :: 0 <= i < |r.configurations| ==>
                r.configurations[i] == PruneConfiguration(mgr.configurations[i], removed)
    ensures removed != mgr.owner ==> NoReferenceTo(r.configurations, removed)
    ensures NamesOf(r.configurations) == NamesOf(mgr.configurations)
    ensures Valid(mgr) ==> Valid(r)
  {
    if removed != mgr.owner then RemoveDependenciesOn(mgr, removed) else mgr
  }

  /** Bulk replacement: the caller must pass at least one configuration; the
      manager then holds exactly the validated collection. */
  function SetBuildConfigurations(mgr: Manager, cs: seq<BuildConfiguration>): (r: Manager)
    requires |cs| > 0
    ensures Valid(r)
    ensures IsValidationOf(cs, r.configurations)
    ensures r.owner == mgr.owner && r.moduleOptions == mgr.moduleOptions
  {
    ValidatedIsValidation(cs);
    mgr.(configurations := Validated(cs))
  }

  /** The persisted form of the manager. */
  function GetState(mgr: Manager): (st: State)
    ensures st.configurations == mgr.configurations
    ensures st.moduleOptions == mgr.moduleOptions
  {
    State(mgr.configurations, mgr.moduleOptions)
  }

  /** Restoring from a persisted state: an empty collection is the normal
      first-run case and gives a single default configuration; otherwise the
      validated collection is installed. The options are always taken over. */
  function LoadState(mgr: Manager, st: State): (r: Manager)
    ensures Valid(r)
    ensures r.owner == mgr.owner && r.moduleOptions == st.moduleOptions
    ensures |st.configurations| == 0 ==> r.configurations == [DefaultConfiguration]
    ensures |st.configurations| > 0 ==> IsValidationOf(st.configurations, r.configurations)
  {
    ValidatedIsValidation(st.configurations);
    if |st.configurations| == 0 then mgr.(configurations := [DefaultConfiguration], moduleOptions := st.moduleOptions)
    else mgr.(configurations := Validated(st.configurations), moduleOptions := st.moduleOptions)
  }

  /** Reading the configurations hands out a fresh array, so writes through
      it can never reach the manager. */
  method GetBuildConfigurations(mgr: Manager) returns (copy: array<BuildConfiguration>)
    ensures fresh(copy)
    ensures copy[..] == mgr.configurations
  {
    copy := new BuildConfiguration[|mgr.configurations|](i requires 0 <= i < |mgr.configurations| => mgr.configurations[i]);
  }

  /** Re-validating a manager's own configurations changes nothing. */
  lemma {:induction false} RevalidationIsIdentity(mgr: Manager)
    requires Valid(mgr)
    ensures Validated(mgr.configurations) == mgr.configurations
  {
    ValidatedIdentity(mgr.configurations);
  }

  /** Persisting a valid manager and loading the state back, into this or any
      other manager, restores the same configurations and options. */
  lemma {:induction false} RoundTrip(mgr: Manager, target: Manager)
    requires Valid(mgr)
    ensures LoadState(target, GetState(mgr)) == Manager(target.owner, mgr.configurations, mgr.moduleOptions)
  {
    ValidatedIdentity(mgr.configurations);
  }

  /** Pruning twice for the same module is pruning once. */
  lemma RemoveDependenciesIdempotent(mgr: Manager, m: ModuleId)
    ensures RemoveDependenciesOn(RemoveDependenciesOn(mgr, m), m) == RemoveDependenciesOn(mgr, m)
  {
    var once := RemoveDependenciesOn(mgr, m);
    var twice := RemoveDependenciesOn(once, m);
    forall i | 0 <= i < |once.configurations|
      ensures twice.configurations[i] == once.configurations[i]
    {
      PruneIdempotent(mgr.configurations[i].dependencies, m);
    }
  }

  /** Pruning a module nothing refers to leaves the manager as it is. */
  lemma RemoveUnreferencedIsNoOp(mgr: Manager, m: ModuleId)
    requires NoReferenceTo(mgr.configurations, m)
    ensures RemoveDependenciesOn(mgr, m) == mgr
  {
    var r := RemoveDependenciesOn(mgr, m);
    forall i | 0 <= i < |mgr.configurations|
      ensures r.configurations[i] == mgr.configurations[i]
    {
      PruneFreeIsIdentity(mgr.configurations[i].dependencies, m);
    }
  }

  /** The configurations "Debug" (depending on a configuration of module
      `m2`) and "Release" (no dependencies) both end up without dependencies
      once `m2` is removed. */
  lemma RemovalScenario(owner: ModuleId, m2: ModuleId, opts: CompilerOptions, c: CompilerOptions)
    requires owner != m2
    ensures
      var debug := BuildConfiguration("Debug", [BuildConfigurationEntry(m2, "Lib")], c, map[]);
      var release := BuildConfiguration("Release", [], c, map[]);
      BeforeModuleRemoved(Manager(owner, [debug, release], opts), m2).configurations
        == [debug.(dependencies := []), release]
  {
    var debug := BuildConfiguration("Debug", [BuildConfigurationEntry(m2, "Lib")], c, map[]);
    var release := BuildConfiguration("Release", [], c, map[]);
    PruneCons(BuildConfigurationEntry(m2, "Lib"), [], m2);
    assert [BuildConfigurationEntry(m2, "Lib")] == [BuildConfigurationEntry(m2, "Lib")] + [];
  }

  /** The operations that change a manager after construction. */
  datatype Event =
    | Replace(configurations: seq<BuildConfiguration>)
    | Load(state: State)
    | ModuleRemoved(removed: ModuleId)

  /** An event the manager's callers may issue: bulk replacement with at
      least one configuration, or any other event. */
  predicate Admissible(e: Event) {
    e.Replace? ==> |e.configurations| > 0
  }

  function Apply(mgr: Manager, e: Event): Manager
    requires Admissible(e)
  {
    match e
    case Replace(cs) => SetBuildConfigurations(mgr, cs)
    case Load(st) => LoadState(mgr, st)
    case ModuleRemoved(m) => BeforeModuleRemoved(mgr, m)
  }

  /** The manager after a history of events. */
  function Run(mgr: Manager, events: seq<Event>): Manager
    requires forall i :: 0 <= i < |events| ==> Admissible(events[i])
    decreases |events|
  {
    if events == [] then mgr else Run(Apply(mgr, events[0]), events[1..])
  }

  /** Whatever the history since construction, the manager holds at least one
      configuration, names are distinct, and the owner never changes. */
  lemma {:induction false} ReachableIsValid(mgr: Manager, events: seq<Event>)
    requires Valid(mgr)
    requires forall i :: 0 <= i < |events| ==> Admissible(events[i])
    ensures Valid(Run(mgr, events)) && Run(mgr, events).owner == mgr.owner
    decreases |events|
  {
    if events != [] {
      ReachableIsValid(Apply(mgr, events[0]), events[1..]);
    }
  }

  /** Every manager reachable from construction survives a save/load round trip. */
  lemma {:induction false} ReachableRoundTrip(owner: ModuleId, events: seq<Event>)
    requires forall i :: 0 <= i < |events| ==> Admissible(events[i])
    ensures var mgr := Run(Create(owner), events); LoadState(mgr, GetState(mgr)) == mgr
  {
    ReachableIsValid(Create(owner), events);
    RoundTrip(Run(Create(owner), events), Run(Create(owner), events));
  }
}
