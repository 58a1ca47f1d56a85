# Intrusion detector loader

A Dafny model of `IntrusionDetectorLoader` from the OWASP ESAPI for .NET. The
loader builds the intrusion detector from its already-parsed configuration
element in four ordered steps:

1. It picks the detector. A configured `Type` is resolved and instantiated.
   Without one, the default `IntrusionDetector` is created and the built-in
   assembly is scanned for types matching `Owasp.Esapi.IntrusionDetection.Actions.*`.
2. It scans every configured extra assembly. Each type whose full name matches
   the assembly's pattern is auto-loaded: it is registered under its
   `ActionAttribute` name when that attribute says `AutoLoad`. A failure is
   logged as one warning, and the loader goes on with the next assembly.
3. It registers every explicitly configured `(name, type)` action. A failure is
   logged as one warning that names the action, and the loader goes on.
4. It adds one `Threshold` per configured entry. The entry's comma-separated
   action list is split, and empty pieces are dropped.

Files:

- `reflection.dfy` (`Reflection`): the runtime the loader reaches through
  reflection, as an explicit registry. `Type.GetType` becomes a lookup in
  `types`, and `Assembly.Load(...).GetTypes()` a lookup in `assemblies`.
  `builtIn` holds the types of the ESAPI assembly. `compile` stands for
  `MatchHelper.WildcardToRegex` followed by `Regex.IsMatch`: it is an opaque
  predicate on full names, and `None` means compiling the pattern throws.
  `Activator.CreateInstance` plus the cast after it succeed exactly when the
  type is constructible and implements the interface cast to. An exception is
  `Outcome.Threw(fault)`.
- `configuration.dfy` (`Configuration`): the configuration elements. A null
  `Type` and an empty one are both `""`.
- `detection.dfy` (`Detection`): the `IntrusionDetector` class. It holds an
  action map and a threshold list, changed through `AddAction` and
  `AddThreshold`. `Apply` gives the action map after a sequence of `AddAction`
  calls.
- `splitting.dfy` (`Splitting`): `String.Split` on `','` with
  `RemoveEmptyEntries`.
- `loader.dfy` (`Loader`): specification functions for each step, giving the
  `AddAction` calls it issues and the warnings it logs. The methods `LoadAction`
  (both forms), `LoadActions` and `Load` change the detector step by step.
  They are proved to issue exactly the calls the functions give. The bodies of
  `Load`'s three loops are separate methods (`LoadAssemblies`,
  `LoadExplicitActions`, `LoadThresholds`). The guarded body of each `try` is
  also a separate method (`TryLoadAssembly`, `TryLoadAction`). Their statements
  are the source's, in the source's order.
- `loader_properties.dfy` (`LoaderProperties`): the loader's guarantees as
  lemmas over those functions.

How the loader behaves on failures, as the code is written:

- A matched auto-load type that fails to instantiate is not skipped. The
  exception leaves `LoadActions` and ends that assembly's scan
  (`ScanKeepsEarlierActions`).
- An extra assembly that fails keeps the actions it registered before the
  failing type, because the `catch` is outside the type loop
  (`FailedAssemblyIsolated`, `FailedAssemblyEffects`).
- An exception in the scan of the built-in assembly is not caught, so loading
  fails. This holds as well as for a bad detector `Type` (`DefaultDetector`).
- The type pattern is an opaque predicate. No glob semantics are claimed for it.

The specification functions `AutoLoad`, `Scan`, `ResolveDetector`,
`LoadAssembly`, `ExplicitAttempt` and `LoadSpec` carry no contracts of their
own. The rows below for the methods that follow them (`LoadAction`,
`LoadActions`, `TryLoadAssembly`, `TryLoadAction`, `Load`) and for the lemmas
about them cover the source lines they model.

## Model

| member | source | states |
|---|---|---|
| `Loader.LoadAction` | trunk/Esapi/IntrusionDetection/IntrusionDetectorLoader.cs:18-36 | Registers an instance of the type under the attribute's `Name`, and returns true, exactly when the type has an `ActionAttribute` with `AutoLoad` set and instantiates. It returns false and leaves the detector unchanged when there is no attribute or `AutoLoad` is false. Instantiation failures propagate. Thresholds are untouched. |
| `Loader.LoadNamedAction` | trunk/Esapi/IntrusionDetection/IntrusionDetectorLoader.cs:43-50 | Binds `name` to a new instance of the type when it instantiates, and otherwise throws and changes nothing. |
| `Loader.LoadActions` | trunk/Esapi/IntrusionDetection/IntrusionDetectorLoader.cs:58-69 | The detector's map afterwards is the old map with the `AddAction` calls of `Scan` applied in order. The exception raised is `Scan`'s. |
| `Loader.TryLoadAssembly` | trunk/Esapi/IntrusionDetection/IntrusionDetectorLoader.cs:93-97 | A missing assembly throws before anything is compiled or registered. A pattern that does not compile throws before scanning. Otherwise the assembly's types are scanned. |
| `Loader.LoadAssemblies` | trunk/Esapi/IntrusionDetection/IntrusionDetectorLoader.cs:92-102 | Each assembly is attempted in order. Its registrations, including those made before a failure, are applied. One warning "Failed to load action assembly" is logged for each assembly that threw. |
| `Loader.TryLoadAction` | trunk/Esapi/IntrusionDetection/IntrusionDetectorLoader.cs:108-110 | Resolves the configured type and registers a new instance under the configured name. It throws when the type is unknown or does not instantiate as an action. |
| `Loader.LoadExplicitActions` | trunk/Esapi/IntrusionDetection/IntrusionDetectorLoader.cs:105-115 | Every explicit action is attempted in order. Each failure logs one warning `Failed to load action "<name>"` and registers nothing. |
| `Loader.LoadThresholds` | trunk/Esapi/IntrusionDetection/IntrusionDetectorLoader.cs:118-123 | Appends `Thresholds(entries)` to the detector's thresholds and leaves its actions alone. |
| `Loader.Load` | trunk/Esapi/IntrusionDetection/IntrusionDetectorLoader.cs:75-126 | Throws exactly when choosing the detector fails. That covers an unknown, unconstructible or non-detector type, and an exception in the built-in scan. Otherwise it returns a fresh detector of the chosen type. Its map results from the built-in scan's calls, then the assemblies', then the explicit actions'. It also holds the configured thresholds and returns the warnings of the isolated failures. |
| `Loader.Thresholds` | trunk/Esapi/IntrusionDetection/IntrusionDetectorLoader.cs:118-123 | One threshold per configured entry, in order. Name, count and interval are copied, and the action list is the split of the entry's string. |
| `Splitting.SplitRemoveEmpty` | trunk/Esapi/IntrusionDetection/IntrusionDetectorLoader.cs:119 | Every name is non-empty and comma-free. Together the names hold every non-comma character of the input in order, with no trimming. The result is empty exactly when the input holds only commas, the empty string included. |
| `Splitting.Split` | trunk/Esapi/IntrusionDetection/IntrusionDetectorLoader.cs:119 | The split at every comma has at least one piece, and no piece contains a comma. |
| `Splitting.JoinSplit` | trunk/Esapi/IntrusionDetection/IntrusionDetectorLoader.cs:119 | Joining the pieces with commas gives back the input. |
| `Splitting.SplitJoin` | trunk/Esapi/IntrusionDetection/IntrusionDetectorLoader.cs:119 | Splitting comma-free pieces joined by commas gives back those pieces, so the split is the only such decomposition. |
| `Splitting.SplitRemoveEmptyRuns` | trunk/Esapi/IntrusionDetection/IntrusionDetectorLoader.cs:119 | The action names are the comma-free runs between commas, in order, with the empty runs dropped. |
| `LoaderProperties.SplitExample` | trunk/Esapi/IntrusionDetection/IntrusionDetectorLoader.cs:119 | `"logAction,lockAction"` splits into `["logAction", "lockAction"]`. |
| `Detection.ApplyLastWins` | trunk/Esapi/IntrusionDetection/IntrusionDetectorLoader.cs:86-115 | After a sequence of `AddAction` calls, a name is bound to the action of the last call that names it. |
| `Detection.ApplyUntouched` | trunk/Esapi/IntrusionDetection/IntrusionDetectorLoader.cs:86-115 | A name no call mentions keeps its binding or stays unbound. |
| `Detection.ApplyKeys` | trunk/Esapi/IntrusionDetection/IntrusionDetectorLoader.cs:86-115 | The names bound after the calls are the names bound before plus the names the calls use. |
| `LoaderProperties.ScanIgnoresNonMatching` | trunk/Esapi/IntrusionDetection/IntrusionDetectorLoader.cs:64-68 | A scan gives the same result when the types whose full name does not match are removed. Non-matching types never change the detector. |
| `LoaderProperties.ScanRegistersOnlyAutoLoad` | trunk/Esapi/IntrusionDetection/IntrusionDetectorLoader.cs:64-68 | Every registration of a scan comes from a matching type whose attribute says `AutoLoad`. It uses the attribute's name and an instance of that type. |
| `LoaderProperties.ScanRegistersEveryAutoLoad` | trunk/Esapi/IntrusionDetection/IntrusionDetectorLoader.cs:64-68 | A scan that runs to the end registers every matching type whose attribute says `AutoLoad`. |
| `LoaderProperties.ScanKeepsEarlierActions` | trunk/Esapi/IntrusionDetection/IntrusionDetectorLoader.cs:64-68 | When the first failing matched auto-load type is at position k, the scan ends there with that exception. Its registrations are exactly those of the types before k. |
| `LoaderProperties.ScanConcat` | trunk/Esapi/IntrusionDetection/IntrusionDetectorLoader.cs:64-68 | Types are tried in `GetTypes` order. Scanning `xs + ys` scans `xs`. If that threw, the result is that of `xs`. Otherwise the registrations of `ys` follow those of `xs`, and the exception is that of `ys`. |
| `LoaderProperties.ScanLaterWins` | trunk/Esapi/IntrusionDetection/IntrusionDetectorLoader.cs:64-68 | In a scan that runs to the end, a name is bound to an instance of the last matching auto-load type that carries that name. Of two such types in one assembly, the later one wins. |
| `LoaderProperties.ConfiguredDetector` | trunk/Esapi/IntrusionDetection/IntrusionDetectorLoader.cs:81-84 | With a `Type` configured, loading succeeds exactly when the type resolves, is constructible and is a detector. The detector is of that type. The built-in assembly is not scanned, and its contents make no difference. |
| `LoaderProperties.DefaultDetector` | trunk/Esapi/IntrusionDetection/IntrusionDetectorLoader.cs:85-89 | Without a `Type`, loading succeeds exactly when the built-in pattern compiles and the built-in scan does not throw. The detector is the default one, and the built-in registrations come first. |
| `LoaderProperties.DefaultDetectorHasBuiltInActions` | trunk/Esapi/IntrusionDetection/IntrusionDetectorLoader.cs:86-88 | After a successful load with the default detector, the name of every matching built-in `AutoLoad` action is bound. |
| `LoaderProperties.AssembliesCompose` | trunk/Esapi/IntrusionDetection/IntrusionDetectorLoader.cs:92-102 | The assembly loop over `xs + ys` is the loop over `xs` followed by the loop over `ys`. A failure in one assembly does not change what is done for the others. |
| `LoaderProperties.FailedAssemblyIsolated` | trunk/Esapi/IntrusionDetection/IntrusionDetectorLoader.cs:92-102 | A failing assembly between others contributes its partial registrations and exactly one warning. The assemblies around it are processed as usual. |
| `LoaderProperties.FailedAssemblyEffects` | trunk/Esapi/IntrusionDetection/IntrusionDetectorLoader.cs:93-101 | A missing assembly or an uncompilable pattern registers nothing. A scan failing at a type keeps the registrations of the types before it. |
| `LoaderProperties.ExplicitCompose` | trunk/Esapi/IntrusionDetection/IntrusionDetectorLoader.cs:105-115 | The explicit-action loop over `xs + ys` is the loop over `xs` followed by the loop over `ys`. |
| `LoaderProperties.FailedActionIsolated` | trunk/Esapi/IntrusionDetection/IntrusionDetectorLoader.cs:105-115 | A failing explicit action registers nothing and logs one warning naming it. Every other explicit action is loaded as usual. |
| `LoaderProperties.ExplicitLastWins` | trunk/Esapi/IntrusionDetection/IntrusionDetectorLoader.cs:105-115 | Among explicit actions, a name ends bound to the last entry with that name that loads. |
| `LoaderProperties.ExplicitActionBindingWins` | trunk/Esapi/IntrusionDetection/IntrusionDetectorLoader.cs:86-115 | In the finished detector, an explicit action that loads, with no later loading entry of the same name, is what its name is bound to, whatever the assemblies registered. |
| `LoaderProperties.ThresholdsNotResolved` | trunk/Esapi/IntrusionDetection/IntrusionDetectorLoader.cs:118-123 | Thresholds never make loading fail. The thresholds added depend only on the configured entries, so names with no registered action are kept. |
| `LoaderProperties.ThresholdExample` | trunk/Esapi/IntrusionDetection/IntrusionDetectorLoader.cs:118-123 | An entry `login_fail`, 5, with actions `"logAction,lockAction"` becomes a threshold listing both names. By `ThresholdsNotResolved`, this holds whichever actions are registered. |

## Left out

- Reflection (`Assembly.Load`, `Type.GetType`, `Activator.CreateInstance`, `GetCustomAttributes`): replaced by the `Reflection.Runtime` registry. These are runtime library calls. A type name given in assembly-qualified form is just another registry key.
- `Assembly.GetTypes()` throwing on an extra assembly: not modelled separately. Inside the guarded assembly body it has the same effect as a missing assembly: nothing registered and one warning.
- `MatchHelper.WildcardToRegex` and `Regex.IsMatch`: that source is not part of this model. The pattern is an opaque predicate, with no glob semantics claimed.
- A type whose `FullName` is null (which would make `IsMatch` throw): every modelled type has a name.
- `IntrusionDetector.AddAction` and `AddThreshold` internals: that source is not part of this model. They are taken to be a map update that overwrites an existing name and a list append. Overwriting is a modelling assumption.
- A detector of a configured `Type` is taken to start with no actions and no thresholds. Its constructor is not part of this model.
- The default `new IntrusionDetector()` is taken to start with no actions and no thresholds. Its constructor is not part of this model. `Load`'s statement that the map is `Apply(map[], ...)` of the calls rests on this.
- `GetTypes()` throwing on the built-in assembly: not modelled. `Runtime.builtIn` is a plain sequence, so the model cannot express that loading then fails. Only a throw inside the scan is modelled as fatal there.
- Action instances are values `Action(typeName)`. Object identity is not modelled, so two instances of one type are equal here.
- `Esapi.Logger`: only the warnings are recorded, each with its message text and the caught fault, in order.
- `Debug.Assert` null checks: references are never null in the model, and strings are never null.
- `TimeSpan` intervals are opaque values that are only copied.
- The `Threshold` constructor is not part of this model. It is taken to store its arguments unchanged.
- Threshold evaluation and action execution happen outside the loader.
- Concurrency: loading is single-threaded.
