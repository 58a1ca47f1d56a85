/**
 * The part of the .NET runtime that the intrusion detector loader reaches
 * through reflection, replaced by an explicit registry of types and
 * assemblies.
 *
 * - `Type.GetType(name, true)` becomes a lookup in `Runtime.types`;
 * - `Assembly.Load(name).GetTypes()` becomes a lookup in `Runtime.assemblies`;
 * - `typeof(IntrusionDetector).Assembly.GetTypes()` is `Runtime.builtIn`;
 * - `MatchHelper.WildcardToRegex(pattern)` followed by `Regex.IsMatch` is
 *   `Runtime.compile`, an opaque predicate on full type names (None when
 *   compiling the pattern throws);
 * - `Activator.CreateInstance` and the cast that follows it succeed exactly
 *   when the type is constructible and implements the expected interface.
 */
module Reflection {

  datatype Option<+T> = None | Some(value: T)

  /** What made a reflection call throw. */
  datatype Fault =
    | TypeNotFound(typeName: string)        // Type.GetType(name, true)
    | AssemblyNotFound(assemblyName: string) // Assembly.Load(name)
    | InvalidPattern(pattern: string)       // MatchHelper.WildcardToRegex(pattern)
    | NotConstructible(fullName: string)    // Activator.CreateInstance(type)
    | InvalidCast(fullName: string)         // (IAction) / (IIntrusionDetector) cast

  /** The result of a call that may throw. */
  datatype Outcome<+T> = Returned(value: T) | Threw(fault: Fault)

  /** The `ActionAttribute` an action type may carry. */
  datatype ActionAttribute = ActionAttribute(autoLoad: bool, name: string)

  /**
   * A type as reflection sees it: its full name, the first `ActionAttribute`
   * it carries (if any), whether `Activator.CreateInstance` succeeds on it,
   * and which of the two interfaces the loader casts to it implements.
   */
  datatype TypeInfo = TypeInfo(
    fullName: string,
    attribute: Option<ActionAttribute>,
    constructible: bool,
    isAction: bool,
    isDetector: bool)

  datatype Runtime = Runtime(
    types: map<string, TypeInfo>,
    assemblies: map<string, seq<TypeInfo>>,
    builtIn: seq<TypeInfo>,
    compile: string -> Option<string -> bool>)

  /** The object an action instance stands for: a fresh instance of its type. */
  datatype Action = Action(typeName: string)

  /** `(IAction)Activator.CreateInstance(t)`. */
  function CreateAction(t: TypeInfo): Outcome<Action>
  {
    if !t.constructible then Threw(NotConstructible(t.fullName))
    else if !t.isAction then Threw(InvalidCast(t.fullName))
    else Returned(Action(t.fullName))
  }

  /** `Type.GetType(name, true)`. */
  function ResolveType(rt: Runtime, name: string): Outcome<TypeInfo>
  {
    if name in rt.types then Returned(rt.types[name]) else Threw(TypeNotFound(name))
  }
}
