# Flex build-configuration manager, modelled in Dafny

This project models `FlexIdeBuildConfigurationManager`, the per-module registry of Flex build
configurations in the IntelliJ Flex plugin. The registry owns an ordered array of build
configurations and one module-level compiler-options record. It supports four operations:

- bulk replacement of the configurations, which first validates and de-duplicates them;
- pruning of dependencies on a module that is about to be removed;
- saving to and loading from a plain persisted `State`;
- handing out a copy of the configuration array.

Everything is modelled with immutable values and pure functions:

- `occurrences.dfy` (`Occurrences`): the first and the last index of a value in a sequence.
- `entities.dfy` (`Entities`): module ids, dependency entries (a build-configuration reference
  into another module, or any other entry), compiler options, build configurations, the default
  configuration.
- `validation.dfy` (`Validation`): validation as a left-to-right fold into an insertion-ordered
  map (`LinkedMap`, modelling `LinkedHashMap`). `IsValidationOf` is an independent statement of
  what the result is. `ValidationCharacterized` proves that this statement and the fold agree on
  every input.
- `pruning.dfy` (`Pruning`): the dependency filter and its properties.
- `manager.dfy` (`ConfigurationManager`): the manager state, its operations, the persisted state,
  and the invariant kept across any history of events.

Two behaviours of the Java file that the model keeps on purpose:

- An empty configuration name is only logged (line 102). The configuration is kept, so
  `Validated` keeps it too.
- `loadState` clones the state's options unconditionally (line 94), and `State`'s options field
  defaults to `new CompilerOptions()` (line 116). The model's `State` therefore always carries
  options.

## Model

| member | source | states |
|---|---|---|
| Validation.Put | flex/src/com/intellij/lang/javascript/flex/projectStructure/FlexIdeBuildConfigurationManager.java:104 | Inserting a name that is already present keeps its slot in the iteration order and replaces its configuration in place. A new name is appended. The map stays well formed. |
| Validation.Values | flex/src/com/intellij/lang/javascript/flex/projectStructure/FlexIdeBuildConfigurationManager.java:109 | The map's values as a sequence: one value per key, in the map's iteration order. |
| Validation.Fold | flex/src/com/intellij/lang/javascript/flex/projectStructure/FlexIdeBuildConfigurationManager.java:98-107 | Inserting the configurations one by one gives a map that lists each key once. It has no more keys than there are inputs. |
| Validation.FoldInvariant | flex/src/com/intellij/lang/javascript/flex/projectStructure/FlexIdeBuildConfigurationManager.java:98-107 | After the loop, the map's keys are exactly the input names. Each key is bound to the last input with that name. Keys are in order of first occurrence. |
| Validation.Validated | flex/src/com/intellij/lang/javascript/flex/projectStructure/FlexIdeBuildConfigurationManager.java:97-110 | The result has pairwise-distinct names. It is no longer than the input, and empty exactly when the input is. |
| Validation.ValidatedIsValidation | flex/src/com/intellij/lang/javascript/flex/projectStructure/FlexIdeBuildConfigurationManager.java:97-110 | The result holds every input name exactly once, empty names included. Under each name it holds the last input of that name, at the slot of the name's first occurrence. |
| Validation.ValidationCharacterized | flex/src/com/intellij/lang/javascript/flex/projectStructure/FlexIdeBuildConfigurationManager.java:97-110 | A sequence satisfies the validation promise (distinct names, same names, last value wins, first-seen order) if and only if it is the validated collection. |
| Validation.ValidatedIdentity | flex/src/com/intellij/lang/javascript/flex/projectStructure/FlexIdeBuildConfigurationManager.java:100-109 | An input whose names are already distinct comes back unchanged. |
| Validation.ValidatedIdempotent | flex/src/com/intellij/lang/javascript/flex/projectStructure/FlexIdeBuildConfigurationManager.java:97-110 | Validating a validated collection changes nothing. |
| Validation.LastWinsAtFirstSlot | flex/src/com/intellij/lang/javascript/flex/projectStructure/FlexIdeBuildConfigurationManager.java:98-109 | For `[x1, y, x2]` with `x1` and `x2` sharing a name, the result is `[x2, y]`, not `[y, x2]`. |
| Pruning.PruneDependencies | flex/src/com/intellij/lang/javascript/flex/projectStructure/FlexIdeBuildConfigurationManager.java:48-53 | No surviving entry references the removed module. The list never grows. |
| Pruning.PruneContents | flex/src/com/intellij/lang/javascript/flex/projectStructure/FlexIdeBuildConfigurationManager.java:48-53 | An entry survives if and only if it was there and does not reference the removed module. Surviving entries keep their multiplicity, including other entry kinds and references into other modules. |
| Pruning.PruneIsSubsequence | flex/src/com/intellij/lang/javascript/flex/projectStructure/FlexIdeBuildConfigurationManager.java:48-53 | The survivors form a subsequence of the original list, so their relative order is kept. |
| Pruning.PruneAppend | flex/src/com/intellij/lang/javascript/flex/projectStructure/FlexIdeBuildConfigurationManager.java:48-53 | Pruning `a + b` equals pruning `a` followed by pruning `b`. Each entry's fate depends on that entry alone. |
| Pruning.PruneFreeIsIdentity | flex/src/com/intellij/lang/javascript/flex/projectStructure/FlexIdeBuildConfigurationManager.java:48-53 | A list with no reference to the module is returned unchanged. |
| Pruning.PruneIdempotent | flex/src/com/intellij/lang/javascript/flex/projectStructure/FlexIdeBuildConfigurationManager.java:48-53 | Pruning the same module twice is the same as pruning it once. |
| Pruning.PruneKeepsOrder | flex/src/com/intellij/lang/javascript/flex/projectStructure/FlexIdeBuildConfigurationManager.java:48-53 | `[a, b, c]`, with only `b` referencing the module, becomes `[a, c]`. |
| ConfigurationManager.Create | flex/src/com/intellij/lang/javascript/flex/projectStructure/FlexIdeBuildConfigurationManager.java:29-33 | A new manager holds exactly one default configuration and default options, so it is valid (non-empty, distinct names). |
| ConfigurationManager.PruneConfiguration | flex/src/com/intellij/lang/javascript/flex/projectStructure/FlexIdeBuildConfigurationManager.java:46-54 | A pruned configuration keeps its name and every field except its dependencies. Its dependencies are exactly the old ones that do not reference the module, in their old relative order. |
| ConfigurationManager.RemoveDependenciesOn | flex/src/com/intellij/lang/javascript/flex/projectStructure/FlexIdeBuildConfigurationManager.java:45-55 | The number, order and names of configurations are unchanged, and so are the owner and options. Every configuration's dependencies are pruned, and none references the module afterwards. Validity is preserved. |
| ConfigurationManager.BeforeModuleRemoved | flex/src/com/intellij/lang/javascript/flex/projectStructure/FlexIdeBuildConfigurationManager.java:37-41 | The owner's own removal leaves the manager as it was. Removal of any other module prunes every configuration in place, exactly as `PruneConfiguration`, and leaves no reference to it. Owner, options, the number of configurations, names and validity are preserved. |
| ConfigurationManager.SetBuildConfigurations | flex/src/com/intellij/lang/javascript/flex/projectStructure/FlexIdeBuildConfigurationManager.java:71-75 | For a non-empty input, the manager afterwards holds a validation of it (exactly `Validated(input)`, by `ValidationCharacterized`). The result is non-empty with distinct names. Owner and options are unchanged. |
| ConfigurationManager.GetState | flex/src/com/intellij/lang/javascript/flex/projectStructure/FlexIdeBuildConfigurationManager.java:77-82 | The state carries the configurations in their order and a copy of the module-level options. |
| ConfigurationManager.LoadState | flex/src/com/intellij/lang/javascript/flex/projectStructure/FlexIdeBuildConfigurationManager.java:84-95 | An empty collection gives exactly one default configuration. A non-empty one gives its validation. Either way the manager is valid afterwards and takes the state's options. |
| ConfigurationManager.GetBuildConfigurations | flex/src/com/intellij/lang/javascript/flex/projectStructure/FlexIdeBuildConfigurationManager.java:63-65 | Returns a fresh array equal to the configurations. |
| ConfigurationManager.RevalidationIsIdentity | flex/src/com/intellij/lang/javascript/flex/projectStructure/FlexIdeBuildConfigurationManager.java:97-110 | Re-validating a valid manager's own configurations changes nothing. |
| ConfigurationManager.RoundTrip | flex/src/com/intellij/lang/javascript/flex/projectStructure/FlexIdeBuildConfigurationManager.java:77-95 | Loading the saved state of a valid manager restores the same configuration sequence and the same options. |
| ConfigurationManager.RemoveDependenciesIdempotent | flex/src/com/intellij/lang/javascript/flex/projectStructure/FlexIdeBuildConfigurationManager.java:45-55 | Pruning the same module a second time is a no-op. |
| ConfigurationManager.RemoveUnreferencedIsNoOp | flex/src/com/intellij/lang/javascript/flex/projectStructure/FlexIdeBuildConfigurationManager.java:45-55 | Pruning a module that nothing references leaves the manager as it was. |
| ConfigurationManager.RemovalScenario | flex/src/com/intellij/lang/javascript/flex/projectStructure/FlexIdeBuildConfigurationManager.java:37-55 | "Debug" depends on module `m2` and "Release" has no dependencies. After `m2` is removed, both have no dependencies. |
| ConfigurationManager.ReachableIsValid | flex/src/com/intellij/lang/javascript/flex/projectStructure/FlexIdeBuildConfigurationManager.java:29-95 | Start from a valid manager and apply any history of bulk replacements, loads and module removals. The manager stays non-empty with distinct names, and its owner never changes. |
| ConfigurationManager.ReachableRoundTrip | flex/src/com/intellij/lang/javascript/flex/projectStructure/FlexIdeBuildConfigurationManager.java:77-95 | For every manager reachable from construction, saving and then loading is a no-op. |

## Left out

- Message-bus subscription and its scoping to the module's lifetime (lines 35-36, 42): event plumbing. Only the handler's guard and the pruning are modelled, as `BeforeModuleRemoved`.
- `getInstance` (lines 57-61): a container lookup plus a module-type assertion, both in framework code.
- `assertWriteAccessAllowed` (line 73) and the single-writer discipline: an external concurrency gate with no effect on results.
- The `assert configurations.length > 0` of line 72 is modelled as the precondition of `SetBuildConfigurations`. With assertions disabled, the source would install an empty array; the model does not cover that case.
- `LOG.error` diagnostics for empty and duplicate names (lines 101-106): logging only, with no effect on the result.
- `configuration.initialize(project)` (lines 90-92): an opaque post-load hook. It is treated as the identity.
- `CompilerOptions.clone()`: compiler options are immutable values, so a clone is the value itself.
- The unimplemented pruning of "optimize for" links (TODO at line 47). The model prunes only build-configuration dependency entries, as the code does.
- XML persistence annotations and the serialisation machinery (lines 23, 113).
- Module identity: Java reference comparison (lines 38, 50) is modelled as equality of opaque module ids.
- Sharing of configuration objects. `getBuildConfigurations` and `getState` copy only the array, and the configuration objects inside it stay shared. `removeDependenciesOn` edits those objects in place, so the edits show through earlier copies. Configurations are values in this model, so this sharing is not represented.
- `getModuleLevelCompilerOptions` (lines 67-69) returns the live options object. In the model it is the `moduleOptions` field.
- `FlexIdeBuildConfiguration` and its default constructor are not part of this model. `DefaultConfiguration` assumes the name "Unnamed", no dependencies and default options. No proved property depends on these values.
- LoadState: line 86 creates a new default configuration object each time. A value model cannot express object identity, so the model only says the result equals `DefaultConfiguration`.
- ReachableIsValid: the validity invariant assumes nobody mutates configuration objects outside the manager. In Java, a caller keeps the objects it passed to `setBuildConfigurations` (line 74) or received from `getBuildConfigurations` (line 64). It can rename one after validation and so break distinct names. Configurations are values here, so this cannot happen in the model.
- ReachableRoundTrip: it rests on the same assumption as `ReachableIsValid`, that no configuration object is mutated outside the manager.
- Null names: `StringUtil.isEmpty` (line 101) also accepts null, and a `LinkedHashMap` accepts a null key, so a configuration whose name is null is kept under a key distinct from `""`. Names are modelled as non-null strings.
