/**
 * The intrusion detector as the loader sees it: a map from action name to
 * action instance and a list of thresholds, changed only through `AddAction`
 * and `AddThreshold`. How those two behave inside the detector is not part of
 * this model; they are taken to be a map update (a later action with the same
 * name replaces the earlier one) and an append.
 */
module Detection {
  import opened Reflection
  import opened Configuration

  /** A threshold as registered on the detector. */
  datatype Threshold = Threshold(name: string, count: int, interval: TimeSpan, actions: seq<string>)

  /** One `AddAction(name, action)` call. */
  datatype Call = Call(name: string, action: Action)

  /** The action map after the given `AddAction` calls, issued in order, on `m`. */
  function Apply(m: map<string, Action>, calls: seq<Call>): map<string, Action>
  {
    if calls == [] then m
    else
      var last := calls[|calls| - 1];
      Apply(m, calls[..|calls| - 1])[last.name := last.action]
  }

  /** The names bound afterwards are those bound before and those the calls name. */
  lemma {:induction false} ApplyKeys(m: map<string, Action>, calls: seq<Call>)
    ensures Apply(m, calls).Keys == m.Keys + set c | c in calls :: c.name
  {
    if calls != [] {
      var init, last := calls[..|calls| - 1], calls[|calls| - 1];
      ApplyKeys(m, init);
      assert calls == init + [last];
      assert (set c | c in calls :: c.name) == (set c | c in init :: c.name) + {last.name};
    }
  }

  /** Issuing two batches of calls one after the other is issuing them all. */
  lemma {:induction false} ApplyConcat(m: map<string, Action>, a: seq<Call>, b: seq<Call>)
    ensures Apply(Apply(m, a), b) == Apply(m, a + b)
  {
    if b != [] {
      var b', last := b[..|b| - 1], b[|b| - 1];
      ApplyConcat(m, a, b');
      assert Apply(Apply(m, a), b) == Apply(Apply(m, a), b')[last.name := last.action];
      assert (a + b)[..|a + b| - 1] == a + b' && (a + b)[|a + b| - 1] == last;
      assert Apply(m, a + b) == Apply(m, a + b')[last.name := last.action];
    } else {
      assert a + b == a;
    }
  }

  /** The binding of a name is the action of the last call that names it. */
  lemma {:induction false} ApplyLastWins(m: map<string, Action>, calls: seq<Call>, i: nat)
    requires i < |calls|
    requires forall j :: i < j < |calls| ==> calls[j].name != calls[i].name
    ensures calls[i].name in Apply(m, calls)
    ensures Apply(m, calls)[calls[i].name] == calls[i].action
  {
    if i < |calls| - 1 {
      ApplyLastWins(m, calls[..|calls| - 1], i);
    }
  }

  /** A name that no call mentions keeps its binding, or stays unbound. */
  lemma {:induction false} ApplyUntouched(m: map<string, Action>, calls: seq<Call>, n: string)
    requires forall j :: 0 <= j < |calls| ==> calls[j].name != n
    ensures n in Apply(m, calls) <==> n in m
    ensures n in m ==> Apply(m, calls)[n] == m[n]
  {
    if calls != [] {
      ApplyUntouched(m, calls[..|calls| - 1], n);
    }
  }

  class IntrusionDetector {
    /** The implementation type of the detector object. */
    const typeName: string
    var actions: map<string, Action>
    var thresholds: seq<Threshold>

    constructor (typeName: string)
      ensures this.typeName == typeName
      ensures actions == map[] && thresholds == []
    {
      this.typeName := typeName;
      actions := map[];
      thresholds := [];
    }

    method AddAction(name: string, action: Action)
      modifies this
      ensures actions == old(actions)[name := action]
      ensures thresholds == old(thresholds)
    {
      actions := actions[name := action];
    }

    method AddThreshold(threshold: Threshold)
      modifies this
      ensures thresholds == old(thresholds) + [threshold]
      ensures actions == old(actions)
    {
      thresholds := thresholds + [threshold];
    }
  }
}
