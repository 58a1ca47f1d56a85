/**
 * What the loader guarantees, stated over the specification functions that
 * its methods are proved to follow.
 */
module LoaderProperties {
  import opened Reflection
  import opened Configuration
  import opened Detection
  import opened Splitting
  import opened Loader

  /** The types of `types` whose full name matches, in order. */
  function Matching(types: seq<TypeInfo>, matches: string -> bool): seq<TypeInfo>
  {
    if types == [] then []
    else if matches(types[0].fullName) then [types[0]] + Matching(types[1..], matches)
    else Matching(types[1..], matches)
  }

  // ---------------------------------------------------------------------
  // Scanning one assembly
  // ---------------------------------------------------------------------

  /** Types whose full name does not match play no part in a scan. */
  lemma {:induction false} ScanIgnoresNonMatching(types: seq<TypeInfo>, matches: string -> bool)
    ensures Scan(types, matches) == Scan(Matching(types, matches), matches)
  {
    if types != [] {
      ScanIgnoresNonMatching(types[1..], matches);
      if matches(types[0].fullName) {
        var m := Matching(types, matches);
        assert m[0] == types[0] && m[1..] == Matching(types[1..], matches);
      }
    }
  }

  /**
   * Every action a scan registers comes from a matching type whose attribute
   * says `AutoLoad`, under the attribute's name.
   */
  lemma {:induction false} ScanRegistersOnlyAutoLoad(types: seq<TypeInfo>, matches: string -> bool, k: nat)
    requires k < |Scan(types, matches).calls|
    ensures exists j :: (0 <= j < |types| && matches(types[j].fullName)
      && types[j].attribute.Some? && types[j].attribute.value.autoLoad
      && Scan(types, matches).calls[k] == Call(types[j].attribute.value.name, Action(types[j].fullName)))
  {
    var t := types[0];
    if !matches(t.fullName) || AutoLoad(t).Skipped? {
      ScanRegistersOnlyAutoLoad(types[1..], matches, k);
      var j :| 0 <= j < |types[1..]| && matches(types[1..][j].fullName)
        && types[1..][j].attribute.Some? && types[1..][j].attribute.value.autoLoad
        && Scan(types[1..], matches).calls[k] == Call(types[1..][j].attribute.value.name, Action(types[1..][j].fullName));
      assert types[j + 1] == types[1..][j];
    } else if AutoLoad(t).Registered? {
      if k > 0 {
        ScanRegistersOnlyAutoLoad(types[1..], matches, k - 1);
        var j :| 0 <= j < |types[1..]| && matches(types[1..][j].fullName)
          && types[1..][j].attribute.Some? && types[1..][j].attribute.value.autoLoad
          && Scan(types[1..], matches).calls[k - 1] == Call(types[1..][j].attribute.value.name, Action(types[1..][j].fullName));
        assert types[j + 1] == types[1..][j];
      } else {
        assert matches(types[0].fullName);
      }
    }
  }

  /**
   * A scan that runs to the end registers every matching type whose attribute
   * says `AutoLoad`, under the attribute's name.
   */
  lemma {:induction false} ScanRegistersEveryAutoLoad(types: seq<TypeInfo>, matches: string -> bool, j: nat)
    requires Scan(types, matches).fault.None?
    requires j < |types| && matches(types[j].fullName)
    requires types[j].attribute.Some? && types[j].attribute.value.autoLoad
    ensures Call(types[j].attribute.value.name, Action(types[j].fullName)) in Scan(types, matches).calls
  {
    if j > 0 {
      assert types[1..][j - 1] == types[j];
      ScanRegistersEveryAutoLoad(types[1..], matches, j - 1);
    }
  }

  /**
   * When a matching auto-load type fails to instantiate, the scan stops there
   * with that exception, and the actions registered from the types before it
   * stay registered.
   */
  lemma {:induction false} ScanKeepsEarlierActions(types: seq<TypeInfo>, matches: string -> bool, k: nat)
    requires k < |types| && matches(types[k].fullName) && AutoLoad(types[k]).Failed?
    requires forall j :: 0 <= j < k ==> !(matches(types[j].fullName) && AutoLoad(types[j]).Failed?)
    ensures Scan(types[..k], matches).fault.None?
    ensures Scan(types, matches) == ScanResult(Scan(types[..k], matches).calls, Some(AutoLoad(types[k]).fault))
  {
    if k > 0 {
      assert types[..k][1..] == types[1..][..k - 1];
      assert types[..k][0] == types[0];
      ScanKeepsEarlierActions(types[1..], matches, k - 1);
    }
  }

  /**
   * Types are tried in `GetTypes` order: scanning `xs + ys` is scanning `xs`
   * and, unless that threw, then scanning `ys`, its registrations after those
   * of `xs`.
   */
  lemma {:induction false} ScanConcat(xs: seq<TypeInfo>, ys: seq<TypeInfo>, matches: string -> bool)
    ensures Scan(xs + ys, matches) ==
      if Scan(xs, matches).fault.Some? then Scan(xs, matches)
      else ScanResult(Scan(xs, matches).calls + Scan(ys, matches).calls, Scan(ys, matches).fault)
  {
    if xs == [] {
      assert xs + ys == ys;
      assert [] + Scan(ys, matches).calls == Scan(ys, matches).calls;
    } else {
      assert (xs + ys)[0] == xs[0] && (xs + ys)[1..] == xs[1..] + ys;
      ScanConcat(xs[1..], ys, matches);
      if matches(xs[0].fullName) && AutoLoad(xs[0]).Registered? {
        var c, a, b := AutoLoad(xs[0]).call, Scan(xs[1..], matches).calls, Scan(ys, matches).calls;
        assert [c] + (a + b) == ([c] + a) + b;
      }
    }
  }

  /**
   * Of the matching auto-load types of a scan that runs to the end, the last
   * one carrying a given name is the one that name ends up bound to.
   */
  lemma ScanLaterWins(m: map<string, Action>, types: seq<TypeInfo>, matches: string -> bool, i: nat)
    requires Scan(types, matches).fault.None?
    requires i < |types| && matches(types[i].fullName)
    requires types[i].attribute.Some? && types[i].attribute.value.autoLoad
    requires forall j :: (i < j < |types| && matches(types[j].fullName)
      && types[j].attribute.Some? && types[j].attribute.value.autoLoad
      ==> types[j].attribute.value.name != types[i].attribute.value.name)
    ensures types[i].attribute.value.name in Apply(m, Scan(types, matches).calls)
    ensures Apply(m, Scan(types, matches).calls)[types[i].attribute.value.name] == Action(types[i].fullName)
  {
    var before, t, after := types[..i], types[i], types[i + 1..];
    assert types == before + ([t] + after);
    ScanConcat(before, [t] + after, matches);
    ScanConcat([t], after, matches);
    assert [t][1..] == [];
    var c := Call(t.attribute.value.name, Action(t.fullName));
    var a, b := Scan(before, matches).calls, Scan(after, matches).calls;
    assert Scan(types, matches).calls == a + [c] + b;
    forall k | 0 <= k < |b| ensures b[k].name != c.name {
      ScanRegistersOnlyAutoLoad(after, matches, k);
      var j :| 0 <= j < |after| && matches(after[j].fullName)
        && after[j].attribute.Some? && after[j].attribute.value.autoLoad
        && b[k] == Call(after[j].attribute.value.name, Action(after[j].fullName));
      assert after[j] == types[i + 1 + j];
    }
    ApplyLastWins(m, a + [c] + b, |a|);
  }

  // ---------------------------------------------------------------------
  // Choosing the detector
  // ---------------------------------------------------------------------

  /**
   * With a detector type configured, that type is resolved and instantiated
   * (any failure is fatal), and the built-in assembly is not scanned: its
   * contents make no difference.
   */
  lemma ConfiguredDetector(config: DetectorElement, rt: Runtime, otherBuiltIn: seq<TypeInfo>)
    requires config.typeName != ""
    ensures LoadSpec(config, rt).Loaded? <==>
      config.typeName in rt.types && rt.types[config.typeName].constructible && rt.types[config.typeName].isDetector
    ensures LoadSpec(config, rt).Loaded? ==>
      && LoadSpec(config, rt).detectorType == rt.types[config.typeName].fullName
      && LoadSpec(config, rt).calls
         == AssembliesPhase(rt, config.assemblies).calls + ExplicitPhase(rt, config.actions).calls
    ensures LoadSpec(config, rt.(builtIn := otherBuiltIn)) == LoadSpec(config, rt)
  {
    AssembliesIgnoreBuiltIn(rt, config.assemblies, otherBuiltIn);
    ExplicitIgnoresBuiltIn(rt, config.actions, otherBuiltIn);
  }

  /** The extra assemblies never look at the built-in assembly. */
  lemma {:induction false} AssembliesIgnoreBuiltIn(rt: Runtime, es: seq<AssemblyElement>, otherBuiltIn: seq<TypeInfo>)
    ensures AssembliesPhase(rt.(builtIn := otherBuiltIn), es) == AssembliesPhase(rt, es)
  {
    if es != [] {
      AssembliesIgnoreBuiltIn(rt, es[1..], otherBuiltIn);
    }
  }

  /** The explicit actions never look at the built-in assembly. */
  lemma {:induction false} ExplicitIgnoresBuiltIn(rt: Runtime, es: seq<ActionElement>, otherBuiltIn: seq<TypeInfo>)
    ensures ExplicitPhase(rt.(builtIn := otherBuiltIn), es) == ExplicitPhase(rt, es)
  {
    if es != [] {
      ExplicitIgnoresBuiltIn(rt, es[1..], otherBuiltIn);
    }
  }

  /**
   * Without a detector type, the default detector is used and the built-in
   * assembly is scanned first; an exception in that scan is fatal, and
   * otherwise the scan's registrations come before all others.
   */
  lemma DefaultDetector(config: DetectorElement, rt: Runtime)
    requires config.typeName == ""
    ensures LoadSpec(config, rt).Loaded? <==>
      rt.compile(BuiltInActionsPattern).Some? && Scan(rt.builtIn, rt.compile(BuiltInActionsPattern).value).fault.None?
    ensures LoadSpec(config, rt).Loaded? ==>
      && LoadSpec(config, rt).detectorType == DefaultDetectorType
      && LoadSpec(config, rt).calls
         == Scan(rt.builtIn, rt.compile(BuiltInActionsPattern).value).calls
            + AssembliesPhase(rt, config.assemblies).calls + ExplicitPhase(rt, config.actions).calls
  {
  }

  /**
   * Without a detector type, a successful load leaves a binding for the name
   * of every built-in action that matches the pattern and says `AutoLoad`.
   */
  lemma DefaultDetectorHasBuiltInActions(config: DetectorElement, rt: Runtime, j: nat)
    requires config.typeName == "" && LoadSpec(config, rt).Loaded?
    requires rt.compile(BuiltInActionsPattern).Some?
    requires j < |rt.builtIn| && rt.compile(BuiltInActionsPattern).value(rt.builtIn[j].fullName)
    requires rt.builtIn[j].attribute.Some? && rt.builtIn[j].attribute.value.autoLoad
    ensures rt.builtIn[j].attribute.value.name in Apply(map[], LoadSpec(config, rt).calls)
  {
    var p := rt.compile(BuiltInActionsPattern).value;
    var c := Call(rt.builtIn[j].attribute.value.name, Action(rt.builtIn[j].fullName));
    ScanRegistersEveryAutoLoad(rt.builtIn, p, j);
    ApplyKeys(map[], LoadSpec(config, rt).calls);
    assert c in LoadSpec(config, rt).calls;
  }

  // ---------------------------------------------------------------------
  // Failure isolation
  // ---------------------------------------------------------------------

  /**
   * The assembly loop over two lists is the loop over the first followed by
   * the loop over the second: what happens to one assembly never changes
   * what is done for the others.
   */
  lemma {:induction false} AssembliesCompose(rt: Runtime, xs: seq<AssemblyElement>, ys: seq<AssemblyElement>)
    ensures AssembliesPhase(rt, xs + ys) == AssembliesPhase(rt, xs).Then(AssembliesPhase(rt, ys))
  {
    if xs == [] {
      assert xs + ys == ys;
      ThenNothing(AssembliesPhase(rt, ys));
    } else {
      assert (xs + ys)[0] == xs[0] && (xs + ys)[1..] == xs[1..] + ys;
      AssembliesCompose(rt, xs[1..], ys);
      ThenAssociative(AssemblyStep(rt, xs[0]), AssembliesPhase(rt, xs[1..]), AssembliesPhase(rt, ys));
    }
  }

  /**
   * An assembly that fails logs exactly one warning, keeps what it added
   * before failing, and the assemblies before and after it are processed as
   * if it were not there.
   */
  lemma FailedAssemblyIsolated(rt: Runtime, xs: seq<AssemblyElement>, a: AssemblyElement, ys: seq<AssemblyElement>)
    requires LoadAssembly(rt, a).fault.Some?
    ensures AssembliesPhase(rt, xs + [a] + ys) == AssembliesPhase(rt, xs)
      .Then(PhaseResult(LoadAssembly(rt, a).calls, [Warning(AssemblyFailureMessage, LoadAssembly(rt, a).fault.value)]))
      .Then(AssembliesPhase(rt, ys))
  {
    AssembliesCompose(rt, xs + [a], ys);
    AssembliesCompose(rt, xs, [a]);
    assert [a][1..] == [];
    ThenNothing(AssemblyStep(rt, a));
  }

  /**
   * An assembly that is missing or whose pattern does not compile adds
   * nothing; one whose scan fails keeps the actions of the types before the
   * failing one.
   */
  lemma FailedAssemblyEffects(rt: Runtime, a: AssemblyElement)
    ensures a.name !in rt.assemblies ==>
      LoadAssembly(rt, a) == ScanResult([], Some(AssemblyNotFound(a.name)))
    ensures a.name in rt.assemblies && rt.compile(a.types).None? ==>
      LoadAssembly(rt, a) == ScanResult([], Some(InvalidPattern(a.types)))
    ensures a.name in rt.assemblies && rt.compile(a.types).Some? ==>
      forall k :: 0 <= k < |rt.assemblies[a.name]|
        && rt.compile(a.types).value(rt.assemblies[a.name][k].fullName)
        && AutoLoad(rt.assemblies[a.name][k]).Failed?
        && (forall j :: 0 <= j < k ==>
              !(rt.compile(a.types).value(rt.assemblies[a.name][j].fullName) && AutoLoad(rt.assemblies[a.name][j]).Failed?))
        ==> LoadAssembly(rt, a).calls == Scan(rt.assemblies[a.name][..k], rt.compile(a.types).value).calls
  {
    if a.name in rt.assemblies && rt.compile(a.types).Some? {
      var types, p := rt.assemblies[a.name], rt.compile(a.types).value;
      forall k | 0 <= k < |types| && p(types[k].fullName) && AutoLoad(types[k]).Failed?
        && (forall j :: 0 <= j < k ==> !(p(types[j].fullName) && AutoLoad(types[j]).Failed?))
        ensures LoadAssembly(rt, a).calls == Scan(types[..k], p).calls
      {
        ScanKeepsEarlierActions(types, p, k);
      }
    }
  }

  /** The explicit-action loop over two lists is the loop over each in turn. */
  lemma {:induction false} ExplicitCompose(rt: Runtime, xs: seq<ActionElement>, ys: seq<ActionElement>)
    ensures ExplicitPhase(rt, xs + ys) == ExplicitPhase(rt, xs).Then(ExplicitPhase(rt, ys))
  {
    if xs == [] {
      assert xs + ys == ys;
      ThenNothing(ExplicitPhase(rt, ys));
    } else {
      assert (xs + ys)[0] == xs[0] && (xs + ys)[1..] == xs[1..] + ys;
      ExplicitCompose(rt, xs[1..], ys);
      ThenAssociative(ExplicitStep(rt, xs[0]), ExplicitPhase(rt, xs[1..]), ExplicitPhase(rt, ys));
    }
  }

  /**
   * An explicit action that fails logs one warning naming it, registers
   * nothing, and every other explicit action is still loaded.
   */
  lemma FailedActionIsolated(rt: Runtime, xs: seq<ActionElement>, e: ActionElement, ys: seq<ActionElement>)
    requires ExplicitAttempt(rt, e).Threw?
    ensures ExplicitPhase(rt, xs + [e] + ys) == ExplicitPhase(rt, xs)
      .Then(PhaseResult([], [Warning(ActionFailureMessage(e.name), ExplicitAttempt(rt, e).fault)]))
      .Then(ExplicitPhase(rt, ys))
  {
    ExplicitCompose(rt, xs + [e], ys);
    ExplicitCompose(rt, xs, [e]);
    assert [e][1..] == [];
    ThenNothing(ExplicitStep(rt, e));
  }

  // ---------------------------------------------------------------------
  // Phase order
  // ---------------------------------------------------------------------

  /**
   * Within the explicit actions, a name ends up bound to the action of the
   * last entry with that name that loads.
   */
  lemma {:induction false} ExplicitLastWins(m: map<string, Action>, rt: Runtime, es: seq<ActionElement>, i: nat)
    requires i < |es| && ExplicitAttempt(rt, es[i]).Returned?
    requires forall j :: i < j < |es| && es[j].name == es[i].name ==> ExplicitAttempt(rt, es[j]).Threw?
    ensures es[i].name in Apply(m, ExplicitPhase(rt, es).calls)
    ensures Apply(m, ExplicitPhase(rt, es).calls)[es[i].name] == ExplicitAttempt(rt, es[i]).value.action
    decreases |es|
  {
    var rest := ExplicitPhase(rt, es[1..]);
    var first := ExplicitCalls(ExplicitAttempt(rt, es[0]));
    assert ExplicitPhase(rt, es).calls == first + rest.calls;
    ApplyConcat(m, first, rest.calls);
    if i > 0 {
      ExplicitLastWins(Apply(m, first), rt, es[1..], i - 1);
    } else {
      var c := ExplicitAttempt(rt, es[0]).value;
      assert first == [c];
      forall j | 0 <= j < |rest.calls| ensures rest.calls[j].name != es[0].name {
        ExplicitCallNamed(rt, es[1..], es[0].name, j);
      }
      ApplyUntouched(Apply(m, first), rest.calls, es[0].name);
      assert Apply(m, first) == Apply(m, [])[c.name := c.action];
    }
  }

  /** A call of the explicit loop names an entry that loads. */
  lemma {:induction false} ExplicitCallNamed(rt: Runtime, es: seq<ActionElement>, n: string, k: nat)
    requires forall j :: 0 <= j < |es| && es[j].name == n ==> ExplicitAttempt(rt, es[j]).Threw?
    requires k < |ExplicitPhase(rt, es).calls|
    ensures ExplicitPhase(rt, es).calls[k].name != n
  {
    var rest := ExplicitPhase(rt, es[1..]);
    assert forall j :: 0 <= j < |es[1..]| ==> es[1..][j] == es[j + 1];
    match ExplicitAttempt(rt, es[0])
    case Returned(c) =>
      if k > 0 {
        ExplicitCallNamed(rt, es[1..], n, k - 1);
      }
    case Threw(_) =>
      ExplicitCallNamed(rt, es[1..], n, k);
  }

  /**
   * Registration happens in phase order (built-in scan, extra assemblies,
   * explicit actions), so an explicit action that loads, with no later
   * explicit action of the same name that loads, is what its name is bound
   * to in the finished detector, whatever the assemblies registered.
   */
  lemma ExplicitActionBindingWins(config: DetectorElement, rt: Runtime, i: nat)
    requires LoadSpec(config, rt).Loaded?
    requires i < |config.actions| && ExplicitAttempt(rt, config.actions[i]).Returned?
    requires forall j :: i < j < |config.actions| && config.actions[j].name == config.actions[i].name ==>
      ExplicitAttempt(rt, config.actions[j]).Threw?
    ensures config.actions[i].name in Apply(map[], LoadSpec(config, rt).calls)
    ensures Apply(map[], LoadSpec(config, rt).calls)[config.actions[i].name]
         == Action(rt.types[config.actions[i].typeName].fullName)
  {
    var b := ResolveDetector(config, rt).value;
    var before := b.calls + AssembliesPhase(rt, config.assemblies).calls;
    ApplyConcat(map[], before, ExplicitPhase(rt, config.actions).calls);
    ExplicitLastWins(Apply(map[], before), rt, config.actions, i);
  }

  // ---------------------------------------------------------------------
  // Thresholds
  // ---------------------------------------------------------------------

  /**
   * Thresholds never make loading fail, and the thresholds registered depend
   * on the configured entries only: the action names they list are not looked
   * up among the registered actions, so a name with no action is kept.
   */
  lemma ThresholdsNotResolved(config: DetectorElement, rt: Runtime, rt': Runtime, entries: seq<ThresholdElement>)
    requires LoadSpec(config, rt).Loaded? && LoadSpec(config, rt').Loaded?
    ensures LoadSpec(config.(thresholds := entries), rt).Loaded?
    ensures LoadSpec(config, rt).thresholds == LoadSpec(config, rt').thresholds == Thresholds(config.thresholds)
  {
  }

  /**
   * The example of a threshold naming two actions: the entry becomes a
   * threshold listing both names, whichever of them are registered
   * (`ThresholdsNotResolved`).
   */
  lemma ThresholdExample()
    ensures Thresholds([ThresholdElement("login_fail", 5, TimeSpan(600000000), "logAction,lockAction")])
         == [Threshold("login_fail", 5, TimeSpan(600000000), ["logAction", "lockAction"])]
  {
    SplitExample();
  }

  lemma SplitExample()
    ensures SplitRemoveEmpty("logAction,lockAction") == ["logAction", "lockAction"]
  {
    JoinExample();
    SplitRemoveEmptyRuns("logAction,lockAction", ["logAction", "lockAction"]);
    RemoveEmptyExample();
  }

  lemma RemoveEmptyExample()
    ensures RemoveEmpty(["logAction", "lockAction"]) == ["logAction", "lockAction"]
  {
    var ps := ["logAction", "lockAction"];
    assert ps[1..] == ["lockAction"] && ps[1..][1..] == [];
  }

  lemma JoinExample()
    ensures Join(["logAction", "lockAction"]) == "logAction,lockAction"
  {
    assert ["logAction", "lockAction"][1..] == ["lockAction"];
  }
}
