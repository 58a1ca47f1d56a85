/**
 * `IntrusionDetectorLoader`: builds an intrusion detector from its
 * configuration element.
 *
 * The functions give, for a configuration and a runtime, the `AddAction` calls
 * each phase issues, the warnings it logs and the thresholds it adds; the
 * methods do the work step by step on an `IntrusionDetector` object and are
 * proved to issue exactly those calls. Exceptions are `Outcome.Threw`; an
 * exception the loader catches becomes a `Warning` carrying its message.
 */
module Loader {
  import opened Reflection
  import opened Configuration
  import opened Detection
  import opened Splitting

  /** The type `new IntrusionDetector()` creates. */
  const DefaultDetectorType := "Owasp.Esapi.IntrusionDetection.IntrusionDetector"
  /** The pattern the built-in assembly is scanned with. */
  const BuiltInActionsPattern := "Owasp.Esapi.IntrusionDetection.Actions.*"
  /** The warning logged when an extra assembly fails. */
  const AssemblyFailureMessage := "Failed to load action assembly"

  /** The warning logged when an explicit action fails. */
  function ActionFailureMessage(name: string): string
  {
    "Failed to load action \"" + name + "\""
  }

  /** One warning written to the logger: its message and the exception caught. */
  datatype Warning = Warning(message: string, cause: Fault)

  /** What the auto-load `LoadAction` does with one type. */
  datatype Attempt = Skipped | Registered(call: Call) | Failed(fault: Fault)

  /** The `AddAction` calls of a scan, and the exception that ended it early, if any. */
  datatype ScanResult = ScanResult(calls: seq<Call>, fault: Option<Fault>)

  /** The `AddAction` calls and warnings of one failure-isolated phase, or of one step of it. */
  datatype PhaseResult = PhaseResult(calls: seq<Call>, warnings: seq<Warning>)
  {
    /** This, followed by `next`. */
    function Then(next: PhaseResult): PhaseResult
    {
      PhaseResult(calls + next.calls, warnings + next.warnings)
    }
  }

  const NothingDone := PhaseResult([], [])

  lemma ThenAssociative(a: PhaseResult, b: PhaseResult, c: PhaseResult)
    ensures a.Then(b.Then(c)) == a.Then(b).Then(c)
  {
    assert a.calls + (b.calls + c.calls) == (a.calls + b.calls) + c.calls;
    assert a.warnings + (b.warnings + c.warnings) == (a.warnings + b.warnings) + c.warnings;
  }

  lemma ThenNothing(a: PhaseResult)
    ensures a.Then(NothingDone) == a && NothingDone.Then(a) == a
  {
    assert a.calls + [] == a.calls && a.warnings + [] == a.warnings;
    assert [] + a.calls == a.calls && [] + a.warnings == a.warnings;
  }

  /** The detector chosen and the `AddAction` calls of the built-in scan. */
  datatype Baseline = Baseline(detectorType: string, calls: seq<Call>)

  /** What `Load` produces: an exception, or the detector's type, calls, thresholds and the warnings logged. */
  datatype LoadResult =
    | Fatal(fault: Fault)
    | Loaded(detectorType: string, calls: seq<Call>, thresholds: seq<Threshold>, warnings: seq<Warning>)

  // ---------------------------------------------------------------------
  // Specification of each step
  // ---------------------------------------------------------------------

  /** The auto-load form of `LoadAction` on one type. */
  function AutoLoad(t: TypeInfo): Attempt
  {
    match t.attribute
    case None => Skipped
    case Some(attr) =>
      if !attr.autoLoad then Skipped
      else
        match CreateAction(t)
        case Threw(f) => Failed(f)
        case Returned(a) => Registered(Call(attr.name, a))
  }

  /**
   * `LoadActions`: the types, in `GetTypes` order, whose full name matches are
   * auto-loaded; the first exception ends the scan and what was added before
   * it stays added.
   */
  function Scan(types: seq<TypeInfo>, matches: string -> bool): ScanResult
  {
    if types == [] then ScanResult([], None)
    else if !matches(types[0].fullName) then Scan(types[1..], matches)
    else
      match AutoLoad(types[0])
      case Skipped => Scan(types[1..], matches)
      case Failed(f) => ScanResult([], Some(f))
      case Registered(c) =>
        var rest := Scan(types[1..], matches);
        ScanResult([c] + rest.calls, rest.fault)
  }

  /** Which detector `Load` uses, and the scan of the built-in assembly for the default one. */
  function ResolveDetector(config: DetectorElement, rt: Runtime): Outcome<Baseline>
  {
    if config.typeName != "" then
      match ResolveType(rt, config.typeName)
      case Threw(f) => Threw(f)
      case Returned(t) =>
        if !t.constructible then Threw(NotConstructible(t.fullName))
        else if !t.isDetector then Threw(InvalidCast(t.fullName))
        else Returned(Baseline(t.fullName, []))
    else
      match rt.compile(BuiltInActionsPattern)
      case None => Threw(InvalidPattern(BuiltInActionsPattern))
      case Some(p) =>
        var s := Scan(rt.builtIn, p);
        if s.fault.Some? then Threw(s.fault.value) else Returned(Baseline(DefaultDetectorType, s.calls))
  }

  /** The body of the `try` for one extra assembly: load it, compile its pattern, scan it. */
  function LoadAssembly(rt: Runtime, a: AssemblyElement): ScanResult
  {
    if a.name !in rt.assemblies then ScanResult([], Some(AssemblyNotFound(a.name)))
    else
      match rt.compile(a.types)
      case None => ScanResult([], Some(InvalidPattern(a.types)))
      case Some(p) => Scan(rt.assemblies[a.name], p)
  }

  /** The warning, if any, that one extra assembly produces. */
  function AssemblyWarnings(s: ScanResult): seq<Warning>
  {
    if s.fault.Some? then [Warning(AssemblyFailureMessage, s.fault.value)] else []
  }

  /** One turn of the extra-assembly loop: what the assembly added, and one warning if it threw. */
  function AssemblyStep(rt: Runtime, a: AssemblyElement): PhaseResult
  {
    var s := LoadAssembly(rt, a);
    PhaseResult(s.calls, AssemblyWarnings(s))
  }

  /** The extra-assembly loop. */
  function AssembliesPhase(rt: Runtime, es: seq<AssemblyElement>): PhaseResult
  {
    if es == [] then NothingDone else AssemblyStep(rt, es[0]).Then(AssembliesPhase(rt, es[1..]))
  }

  /** The body of the `try` for one explicit action: resolve its type, instantiate it. */
  function ExplicitAttempt(rt: Runtime, e: ActionElement): Outcome<Call>
  {
    match ResolveType(rt, e.typeName)
    case Threw(f) => Threw(f)
    case Returned(t) =>
      match CreateAction(t)
      case Threw(f) => Threw(f)
      case Returned(a) => Returned(Call(e.name, a))
  }

  /** The action one explicit entry registers, if it loads. */
  function ExplicitCalls(o: Outcome<Call>): seq<Call>
  {
    if o.Returned? then [o.value] else []
  }

  /** The warning, naming the action, that one failing explicit entry produces. */
  function ExplicitWarnings(e: ActionElement, o: Outcome<Call>): seq<Warning>
  {
    if o.Threw? then [Warning(ActionFailureMessage(e.name), o.fault)] else []
  }

  /** One turn of the explicit-action loop. */
  function ExplicitStep(rt: Runtime, e: ActionElement): PhaseResult
  {
    var o := ExplicitAttempt(rt, e);
    PhaseResult(ExplicitCalls(o), ExplicitWarnings(e, o))
  }

  /** The explicit-action loop. */
  function ExplicitPhase(rt: Runtime, es: seq<ActionElement>): PhaseResult
  {
    if es == [] then NothingDone else ExplicitStep(rt, es[0]).Then(ExplicitPhase(rt, es[1..]))
  }

  /** The threshold built from one configured entry. */
  function ThresholdOf(e: ThresholdElement): Threshold
  {
    Threshold(e.name, e.count, e.interval, SplitRemoveEmpty(e.actions))
  }

  /**
   * The threshold loop: one threshold per entry, in configuration order, with
   * name, count and interval copied and the action list split; nothing here
   * looks at the registered actions.
   */
  function Thresholds(es: seq<ThresholdElement>): (r: seq<Threshold>)
    ensures |r| == |es|
    ensures forall i :: 0 <= i < |es| ==>
      && r[i].name == es[i].name && r[i].count == es[i].count && r[i].interval == es[i].interval
      && r[i].actions == SplitRemoveEmpty(es[i].actions)
  {
    if es == [] then [] else [ThresholdOf(es[0])] + Thresholds(es[1..])
  }

  /** `Load` as a whole. */
  function LoadSpec(config: DetectorElement, rt: Runtime): LoadResult
  {
    match ResolveDetector(config, rt)
    case Threw(f) => Fatal(f)
    case Returned(b) =>
      var assemblies := AssembliesPhase(rt, config.assemblies);
      var explicit := ExplicitPhase(rt, config.actions);
      Loaded(b.detectorType, b.calls + assemblies.calls + explicit.calls,
             Thresholds(config.thresholds), assemblies.warnings + explicit.warnings)
  }

  // ---------------------------------------------------------------------
  // The loader
  // ---------------------------------------------------------------------

  /**
   * Auto-load form: registers an instance of `t` under its attribute's name
   * exactly when `t` carries an `ActionAttribute` with `AutoLoad` set, and
   * then returns true; otherwise leaves the detector alone and returns false.
   * Instantiation failures propagate.
   */
  method LoadAction(detector: IntrusionDetector, t: TypeInfo) returns (r: Outcome<bool>)
    modifies detector
    ensures r == Returned(true) <==> AutoLoad(t).Registered?
    ensures r == Returned(false) <==> t.attribute.None? || !t.attribute.value.autoLoad
    ensures r.Threw? <==> AutoLoad(t).Failed?
    ensures r.Threw? ==> r.fault == AutoLoad(t).fault
    ensures r == Returned(true) ==>
      detector.actions == old(detector.actions)[t.attribute.value.name := Action(t.fullName)]
    ensures r != Returned(true) ==> detector.actions == old(detector.actions)
    ensures detector.thresholds == old(detector.thresholds)
  {
    var loaded := false;
    if t.attribute.Some? {
      var attr := t.attribute.value;
      if attr.autoLoad {
        var instance := CreateAction(t);
        if instance.Threw? {
          return Threw(instance.fault);
        }
        detector.AddAction(attr.name, instance.value);
        loaded := true;
      }
    }
    return Returned(loaded);
  }

  /** Explicit form: registers an instance of `t` under `name`; instantiation failures propagate. */
  method LoadNamedAction(detector: IntrusionDetector, t: TypeInfo, name: string) returns (fault: Option<Fault>)
    modifies detector
    ensures fault.None? <==> CreateAction(t).Returned?
    ensures fault.Some? ==> fault.value == CreateAction(t).fault && detector.actions == old(detector.actions)
    ensures fault.None? ==> detector.actions == old(detector.actions)[name := Action(t.fullName)]
    ensures detector.thresholds == old(detector.thresholds)
  {
    var instance := CreateAction(t);
    if instance.Threw? {
      return Some(instance.fault);
    }
    detector.AddAction(name, instance.value);
    return None;
  }

  /** Scans `types` and auto-loads those whose full name matches. */
  method LoadActions(detector: IntrusionDetector, types: seq<TypeInfo>, matches: string -> bool)
    returns (fault: Option<Fault>)
    modifies detector
    ensures fault == Scan(types, matches).fault
    ensures detector.actions == Apply(old(detector.actions), Scan(types, matches).calls)
    ensures detector.thresholds == old(detector.thresholds)
  {
    ghost var done: seq<Call> := [];
    for i := 0 to |types|
      invariant Scan(types, matches).calls == done + Scan(types[i..], matches).calls
      invariant Scan(types, matches).fault == Scan(types[i..], matches).fault
      invariant detector.actions == Apply(old(detector.actions), done)
      invariant detector.thresholds == old(detector.thresholds)
    {
      var t := types[i];
      assert types[i..][1..] == types[i + 1..];
      if matches(t.fullName) {
        var loaded := LoadAction(detector, t);
        if loaded.Threw? {
          assert done + Scan(types[i..], matches).calls == done + [] == done;
          return Some(loaded.fault);
        }
        if loaded.value {
          var c := Call(t.attribute.value.name, Action(t.fullName));
          assert (done + [c])[..|done|] == done;
          done := done + [c];
        }
      }
    }
    assert types[|types|..] == [] && done + [] == done;
    return None;
  }

  /** The guarded body for one extra assembly: `Assembly.Load`, `WildcardToRegex`, `LoadActions`. */
  method TryLoadAssembly(detector: IntrusionDetector, rt: Runtime, a: AssemblyElement) returns (fault: Option<Fault>)
    modifies detector
    ensures fault == LoadAssembly(rt, a).fault
    ensures detector.actions == Apply(old(detector.actions), LoadAssembly(rt, a).calls)
    ensures detector.thresholds == old(detector.thresholds)
  {
    if a.name !in rt.assemblies {
      return Some(AssemblyNotFound(a.name));
    }
    var pattern := rt.compile(a.types);
    if pattern.None? {
      return Some(InvalidPattern(a.types));
    }
    fault := LoadActions(detector, rt.assemblies[a.name], pattern.value);
  }

  /** The extra-assembly loop: a failing assembly is logged and the next one is tried. */
  method LoadAssemblies(detector: IntrusionDetector, rt: Runtime, assemblies: seq<AssemblyElement>)
    returns (warnings: seq<Warning>)
    modifies detector
    ensures detector.actions == Apply(old(detector.actions), AssembliesPhase(rt, assemblies).calls)
    ensures warnings == AssembliesPhase(rt, assemblies).warnings
    ensures detector.thresholds == old(detector.thresholds)
  {
    warnings := [];
    ghost var done: seq<Call> := [];
    ThenNothing(AssembliesPhase(rt, assemblies));
    for i := 0 to |assemblies|
      invariant AssembliesPhase(rt, assemblies) == PhaseResult(done, warnings).Then(AssembliesPhase(rt, assemblies[i..]))
      invariant detector.actions == Apply(old(detector.actions), done)
      invariant detector.thresholds == old(detector.thresholds)
    {
      var a := assemblies[i];
      ghost var step, rest := AssemblyStep(rt, a), AssembliesPhase(rt, assemblies[i + 1..]);
      assert assemblies[i..][1..] == assemblies[i + 1..];
      ThenAssociative(PhaseResult(done, warnings), step, rest);
      ghost var logged := warnings;
      var fault := TryLoadAssembly(detector, rt, a);
      if fault.Some? {
        warnings := warnings + [Warning(AssemblyFailureMessage, fault.value)];
      } else {
        assert logged + step.warnings == logged;
      }
      ApplyConcat(old(detector.actions), done, step.calls);
      done := done + step.calls;
    }
    assert assemblies[|assemblies|..] == [];
    ThenNothing(PhaseResult(done, warnings));
  }

  /** The guarded body for one explicit action: `Type.GetType`, then the explicit `LoadAction`. */
  method TryLoadAction(detector: IntrusionDetector, rt: Runtime, e: ActionElement) returns (fault: Option<Fault>)
    modifies detector
    ensures fault.Some? <==> ExplicitAttempt(rt, e).Threw?
    ensures fault.Some? ==> fault.value == ExplicitAttempt(rt, e).fault
    ensures detector.actions == Apply(old(detector.actions), ExplicitCalls(ExplicitAttempt(rt, e)))
    ensures detector.thresholds == old(detector.thresholds)
  {
    var actionType := ResolveType(rt, e.typeName);
    if actionType.Threw? {
      return Some(actionType.fault);
    }
    fault := LoadNamedAction(detector, actionType.value, e.name);
  }

  /** The explicit-action loop: a failing action is logged under its name and the next one is tried. */
  method LoadExplicitActions(detector: IntrusionDetector, rt: Runtime, actions: seq<ActionElement>)
    returns (warnings: seq<Warning>)
    modifies detector
    ensures detector.actions == Apply(old(detector.actions), ExplicitPhase(rt, actions).calls)
    ensures warnings == ExplicitPhase(rt, actions).warnings
    ensures detector.thresholds == old(detector.thresholds)
  {
    warnings := [];
    ghost var done: seq<Call> := [];
    ThenNothing(ExplicitPhase(rt, actions));
    for i := 0 to |actions|
      invariant ExplicitPhase(rt, actions) == PhaseResult(done, warnings).Then(ExplicitPhase(rt, actions[i..]))
      invariant detector.actions == Apply(old(detector.actions), done)
      invariant detector.thresholds == old(detector.thresholds)
    {
      var e := actions[i];
      ghost var step, rest := ExplicitStep(rt, e), ExplicitPhase(rt, actions[i + 1..]);
      assert actions[i..][1..] == actions[i + 1..];
      ThenAssociative(PhaseResult(done, warnings), step, rest);
      ghost var logged := warnings;
      var failMessage := ActionFailureMessage(e.name);
      var fault := TryLoadAction(detector, rt, e);
      if fault.Some? {
        warnings := warnings + [Warning(failMessage, fault.value)];
      } else {
        assert logged + step.warnings == logged;
      }
      ApplyConcat(old(detector.actions), done, step.calls);
      done := done + step.calls;
    }
    assert actions[|actions|..] == [];
    ThenNothing(PhaseResult(done, warnings));
  }

  /** The threshold loop: one `AddThreshold` per configured entry. */
  method LoadThresholds(detector: IntrusionDetector, entries: seq<ThresholdElement>)
    modifies detector
    ensures detector.thresholds == old(detector.thresholds) + Thresholds(entries)
    ensures detector.actions == old(detector.actions)
  {
    for i := 0 to |entries|
      invariant detector.thresholds == old(detector.thresholds) + Thresholds(entries[..i])
      invariant detector.actions == old(detector.actions)
    {
      var e := entries[i];
      var actions := SplitRemoveEmpty(e.actions);
      var threshold := Threshold(e.name, e.count, e.interval, actions);
      ThresholdsAppend(entries[..i], e);
      assert entries[..i + 1] == entries[..i] + [e];
      detector.AddThreshold(threshold);
    }
    assert entries[..|entries|] == entries;
  }

  /**
   * Builds the detector: picks it (scanning the built-in assembly for the
   * default one), then the extra assemblies, the explicit actions and the
   * thresholds. Only picking the detector can throw.
   */
  method Load(config: DetectorElement, rt: Runtime) returns (r: Outcome<IntrusionDetector>, warnings: seq<Warning>)
    ensures r.Threw? <==> LoadSpec(config, rt).Fatal?
    ensures r.Threw? ==> r.fault == LoadSpec(config, rt).fault && warnings == []
    ensures r.Returned? ==>
      var spec := LoadSpec(config, rt);
      && fresh(r.value)
      && r.value.typeName == spec.detectorType
      && r.value.actions == Apply(map[], spec.calls)
      && r.value.thresholds == spec.thresholds
      && warnings == spec.warnings
  {
    var detector: IntrusionDetector;
    ghost var baseline: seq<Call> := [];
    if config.typeName != "" {
      var detectorType := ResolveType(rt, config.typeName);
      if detectorType.Threw? {
        return Threw(detectorType.fault), [];
      }
      var t := detectorType.value;
      if !t.constructible {
        return Threw(NotConstructible(t.fullName)), [];
      }
      if !t.isDetector {
        return Threw(InvalidCast(t.fullName)), [];
      }
      detector := new IntrusionDetector(t.fullName);
    } else {
      // Create the default detector and load all built-in actions.
      detector := new IntrusionDetector(DefaultDetectorType);
      var pattern := rt.compile(BuiltInActionsPattern);
      if pattern.None? {
        return Threw(InvalidPattern(BuiltInActionsPattern)), [];
      }
      var fault := LoadActions(detector, rt.builtIn, pattern.value);
      if fault.Some? {
        return Threw(fault.value), [];
      }
      baseline := Scan(rt.builtIn, pattern.value).calls;
    }
    assert ResolveDetector(config, rt) == Returned(Baseline(detector.typeName, baseline));
    assert detector.actions == Apply(map[], baseline);

    var assemblyWarnings := LoadAssemblies(detector, rt, config.assemblies);
    ghost var assemblyCalls := AssembliesPhase(rt, config.assemblies).calls;
    ApplyConcat(map[], baseline, assemblyCalls);

    var actionWarnings := LoadExplicitActions(detector, rt, config.actions);
    ApplyConcat(map[], baseline + assemblyCalls, ExplicitPhase(rt, config.actions).calls);

    LoadThresholds(detector, config.thresholds);
    assert [] + Thresholds(config.thresholds) == Thresholds(config.thresholds);
    return Returned(detector), assemblyWarnings + actionWarnings;
  }

  /** Adding one more entry adds its threshold at the end. */
  lemma {:induction false} ThresholdsAppend(es: seq<ThresholdElement>, e: ThresholdElement)
    ensures Thresholds(es + [e]) == Thresholds(es) + [ThresholdOf(e)]
  {
    if es != [] {
      assert (es + [e])[1..] == es[1..] + [e];
      ThresholdsAppend(es[1..], e);
    } else {
      assert es + [e] == [e];
    }
  }
}
