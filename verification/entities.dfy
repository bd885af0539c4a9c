/** The value types the build-configuration manager works on. */
module Entities {

  /** A module of the project, compared by identity; modelled as an opaque name. */
  datatype ModuleId = ModuleId(name: string)

  /** One entry of a configuration's dependency list. Only the reference to a
      build configuration of another module matters to the manager; every
      other kind of entry (libraries, SDK) is carried as an opaque description. */
  datatype DependencyEntry =
    | BuildConfigurationEntry(target: ModuleId, configurationName: string)
    | OtherEntry(description: string)
  {
    /** True iff this entry is a build-configuration reference into `m`. */
    predicate References(m: ModuleId) {
      BuildConfigurationEntry? && target == m
    }
  }

  /** Compiler options: an opaque key/value bag. A value, so a clone is the value itself. */
  datatype CompilerOptions = CompilerOptions(options: map<string, string>)

  const DefaultCompilerOptions: CompilerOptions := CompilerOptions(map[])

  /** A named build configuration. `settings` stands for every field the
      manager only passes through (output type, target platform, ...). */
  datatype BuildConfiguration = BuildConfiguration(
    name: string,
    dependencies: seq<DependencyEntry>,
    compilerOptions: CompilerOptions,
    settings: map<string, string>)

  /** The configuration a freshly constructed configuration object holds. */
  const DefaultConfiguration: BuildConfiguration :=
    BuildConfiguration("Unnamed", [], DefaultCompilerOptions, map[])

  /** The names of `cs`, position by position. */
  function NamesOf(cs: seq<BuildConfiguration>): (ns: seq<string>)
    ensures |ns| == |cs|
    ensures forall i :: 0 <= i < |cs| ==> ns[i] == cs[i].name
  {
    seq(|cs|, i requires 0 <= i < |cs| => cs[i].name)
  }

  lemma NamesOfSnoc(cs: seq<BuildConfiguration>, c: BuildConfiguration)
    ensures NamesOf(cs + [c]) == NamesOf(cs) + [c.name]
  {
  }

  /** No two configurations of `cs` share a name. */
  predicate DistinctNames(cs: seq<BuildConfiguration>) {
    forall i, j :: 0 <= i < j < |cs| ==> cs[i].name != cs[j].name
  }
}
