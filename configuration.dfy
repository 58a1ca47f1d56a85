/**
 * The already-parsed configuration the loader reads: the `intrusionDetector`
 * element with its optional detector type, its extra action assemblies, its
 * explicitly named actions and its event thresholds.
 */
module Configuration {

  /** `System.TimeSpan`, kept opaque: the loader only copies it. */
  datatype TimeSpan = TimeSpan(ticks: int)

  /** An extra assembly to scan, with the wildcard pattern its types must match. */
  datatype AssemblyElement = AssemblyElement(name: string, types: string)

  /** An explicitly configured action: the name to register it under and its type. */
  datatype ActionElement = ActionElement(name: string, typeName: string)

  /** An event threshold; `actions` is the comma-separated list of action names. */
  datatype ThresholdElement = ThresholdElement(name: string, count: int, interval: TimeSpan, actions: string)

  /**
   * The detector element. A missing `Type` attribute (null) and an empty one
   * are both the empty string here: the loader treats them alike.
   */
  datatype DetectorElement = DetectorElement(
    typeName: string,
    assemblies: seq<AssemblyElement>,
    actions: seq<ActionElement>,
    thresholds: seq<ThresholdElement>)
}
