/**
 * `String.Split(new char[] { ',' }, StringSplitOptions.RemoveEmptyEntries)`,
 * the way a threshold's comma-separated list of action names becomes a
 * sequence of names.
 *
 * `Split` is the plain split at every comma (empty pieces kept), characterised
 * by `JoinSplit` and `SplitJoin` as the one sequence of comma-free pieces that
 * joins back to the input; `SplitRemoveEmpty` drops the empty pieces.
 */
module Splitting {

  const Comma := ','

  /** The pieces of `s` between commas, empty pieces included. */
  function Split(s: string): (r: seq<string>)
    ensures |r| >= 1
    ensures forall i :: 0 <= i < |r| ==> Comma !in r[i]
  {
    if s == [] then [""]
    else
      var rest := Split(s[1..]);
      if s[0] == Comma then [""] + rest
      else [[s[0]] + rest[0]] + rest[1..]
  }

  /** The pieces written one after another with a comma between neighbours. */
  function Join(ps: seq<string>): string
    requires |ps| >= 1
  {
    if |ps| == 1 then ps[0] else ps[0] + [Comma] + Join(ps[1..])
  }

  /** The pieces written one after another, nothing between them. */
  function Concat(ps: seq<string>): string
  {
    if ps == [] then [] else ps[0] + Concat(ps[1..])
  }

  /** `s` with every comma taken out and nothing else changed. */
  function RemoveCommas(s: string): string
  {
    if s == [] then [] else (if s[0] == Comma then [] else [s[0]]) + RemoveCommas(s[1..])
  }

  /** The pieces that are not empty, in their order. */
  function RemoveEmpty(ps: seq<string>): seq<string>
  {
    if ps == [] then []
    else if ps[0] == "" then RemoveEmpty(ps[1..])
    else [ps[0]] + RemoveEmpty(ps[1..])
  }

  /**
   * The action list of a threshold: every name is non-empty and comma-free,
   * the names together hold every character of `s` but the commas, in order
   * (nothing is trimmed), and the list is empty exactly when `s` holds
   * nothing but commas (the empty string included).
   */
  function SplitRemoveEmpty(s: string): (r: seq<string>)
    ensures forall i :: 0 <= i < |r| ==> r[i] != "" && Comma !in r[i]
    ensures Concat(r) == RemoveCommas(s)
    ensures r == [] <==> forall k :: 0 <= k < |s| ==> s[k] == Comma
  {
    var r := RemoveEmpty(Split(s));
    RemoveEmptyProperties(Split(s));
    ConcatSplit(s);
    ConcatEmpty(r);
    RemoveCommasEmpty(s);
    r
  }

  lemma {:induction false} JoinSplit(s: string)
    ensures Join(Split(s)) == s
  {
    if s != [] {
      var rest := Split(s[1..]);
      JoinSplit(s[1..]);
      if s[0] == Comma {
        assert Split(s) == [""] + rest;
        assert ([""] + rest)[1..] == rest;
      } else {
        var ps := [[s[0]] + rest[0]] + rest[1..];
        assert ps[1..] == rest[1..];
        if |rest| == 1 {
          assert Join(ps) == [s[0]] + rest[0];
        } else {
          assert Join(rest) == rest[0] + [Comma] + Join(rest[1..]);
        }
        assert s == [s[0]] + s[1..];
      }
    }
  }

  /** Split of a comma-free prefix followed by anything. */
  lemma {:induction false} SplitPrefix(p: string, t: string)
    requires Comma !in p
    ensures Split(p + t) == [p + Split(t)[0]] + Split(t)[1..]
  {
    if p == [] {
      assert p + t == t;
      assert p + Split(t)[0] == Split(t)[0];
      assert Split(t) == [Split(t)[0]] + Split(t)[1..];
    } else {
      SplitPrefix(p[1..], t);
      assert (p + t)[0] == p[0];
      assert (p + t)[1..] == p[1..] + t;
      assert [p[0]] + (p[1..] + Split(t)[0]) == p + Split(t)[0];
    }
  }

  /**
   * The plain split is the only way to cut `Join(ps)` into comma-free pieces:
   * splitting gives back exactly the pieces that were joined.
   */
  lemma {:induction false} SplitJoin(ps: seq<string>)
    requires |ps| >= 1
    requires forall i :: 0 <= i < |ps| ==> Comma !in ps[i]
    ensures Split(Join(ps)) == ps
  {
    if |ps| == 1 {
      SplitPrefix(ps[0], "");
      assert ps[0] + "" == ps[0];
    } else {
      SplitJoin(ps[1..]);
      var t := [Comma] + Join(ps[1..]);
      SplitPrefix(ps[0], t);
      assert t[0] == Comma && t[1..] == Join(ps[1..]);
      assert Split(t) == [""] + ps[1..];
      assert ps[0] + t == Join(ps);
      assert ps[0] + "" == ps[0];
      assert ps == [ps[0]] + ps[1..];
    }
  }

  lemma {:induction false} ConcatSplit(s: string)
    ensures Concat(Split(s)) == RemoveCommas(s)
  {
    if s != [] {
      var rest := Split(s[1..]);
      ConcatSplit(s[1..]);
      if s[0] == Comma {
        assert ([""] + rest)[1..] == rest;
      } else {
        var ps := [[s[0]] + rest[0]] + rest[1..];
        assert ps[1..] == rest[1..];
        assert Concat(rest) == rest[0] + Concat(rest[1..]);
      }
    }
  }

  lemma {:induction false} RemoveEmptyProperties(ps: seq<string>)
    ensures forall i :: 0 <= i < |RemoveEmpty(ps)| ==> RemoveEmpty(ps)[i] != ""
    ensures forall i :: 0 <= i < |RemoveEmpty(ps)| ==> RemoveEmpty(ps)[i] in ps
    ensures Concat(RemoveEmpty(ps)) == Concat(ps)
  {
    if ps != [] {
      RemoveEmptyProperties(ps[1..]);
      var rest := RemoveEmpty(ps[1..]);
      if ps[0] != "" {
        assert ([ps[0]] + rest)[1..] == rest;
        forall i | 0 <= i < |RemoveEmpty(ps)| ensures RemoveEmpty(ps)[i] in ps {
          if i > 0 { assert RemoveEmpty(ps)[i] == rest[i - 1]; }
        }
      } else {
        assert Concat(ps) == Concat(ps[1..]);
      }
    }
  }

  lemma {:induction false} ConcatEmpty(ps: seq<string>)
    requires forall i :: 0 <= i < |ps| ==> ps[i] != ""
    ensures Concat(ps) == [] <==> ps == []
  {
    if ps != [] {
      assert |Concat(ps)| >= |ps[0]| > 0;
    }
  }

  lemma {:induction false} RemoveCommasEmpty(s: string)
    ensures RemoveCommas(s) == [] <==> forall k :: 0 <= k < |s| ==> s[k] == Comma
  {
    if s != [] {
      RemoveCommasEmpty(s[1..]);
      if s[0] == Comma {
        assert forall k :: 1 <= k < |s| ==> s[k] == s[1..][k - 1];
      }
    }
  }

  /**
   * The names of a threshold are the comma-free runs of the input between
   * commas, in order, with the empty ones dropped: whatever comma-free pieces
   * join to `s`, dropping their empty ones gives the result.
   */
  lemma SplitRemoveEmptyRuns(s: string, ps: seq<string>)
    requires |ps| >= 1
    requires forall i :: 0 <= i < |ps| ==> Comma !in ps[i]
    requires Join(ps) == s
    ensures SplitRemoveEmpty(s) == RemoveEmpty(ps)
  {
    SplitJoin(ps);
  }
}
