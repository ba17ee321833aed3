/** Optional values, standing for the generator's `undefined` results, and
    the filter that drops the absent ones (`.filter(x => !!x)`). */
module Wrappers {

  datatype Option<+T> = None | Some(value: T) {

    /** The value, or `default` when absent (the `??` operator). */
    function GetOr(default: T): T {
      match this
      case Some(v) => v
      case None => default
    }
  }

  /** The values of the present elements of `s`, in their original order. */
  function Somes<T>(s: seq<Option<T>>): (r: seq<T>)
    ensures |r| <= |s|
  {
    if s == [] then []
    else (if s[0].Some? then [s[0].value] else []) + Somes(s[1..])
  }

  /** Nothing is dropped exactly when every element is present. */
  lemma {:induction false} SomesKeepsAll<T>(s: seq<Option<T>>)
    ensures |Somes(s)| == |s| <==> forall i :: 0 <= i < |s| ==> s[i].Some?
  {
    if s != [] {
      SomesKeepsAll(s[1..]);
      if s[0].Some? {
        assert forall i :: 1 <= i < |s| ==> s[i] == s[1..][i - 1];
      }
    }
  }

  /** When every element is present, `Somes` just unwraps them, position by position. */
  lemma {:induction false} SomesOfPresent<T>(s: seq<Option<T>>)
    requires forall i :: 0 <= i < |s| ==> s[i].Some?
    ensures |Somes(s)| == |s|
    ensures forall i :: 0 <= i < |s| ==> Somes(s)[i] == s[i].value
  {
    if s != [] {
      assert forall i :: 1 <= i < |s| ==> s[i] == s[1..][i - 1];
      SomesOfPresent(s[1..]);
    }
  }

  /** Every present value is kept. */
  lemma {:induction false} SomesComplete<T>(s: seq<Option<T>>)
    ensures forall x :: Some(x) in s ==> x in Somes(s)
  {
    if s != [] {
      SomesComplete(s[1..]);
      assert Somes(s) == (if s[0].Some? then [s[0].value] else []) + Somes(s[1..]);
      forall x | Some(x) in s ensures x in Somes(s) {
        if s[0] != Some(x) {
          assert Some(x) in s[1..];
        }
      }
    }
  }

  /** Every kept value comes from a present element of `s`. */
  lemma {:induction false} SomesOrigin<T>(s: seq<Option<T>>)
    ensures forall x :: x in Somes(s) ==> Some(x) in s
  {
    if s != [] {
      SomesOrigin(s[1..]);
      assert Somes(s) == (if s[0].Some? then [s[0].value] else []) + Somes(s[1..]);
      forall x | x in Somes(s[1..]) ensures Some(x) in s {
        assert Some(x) in s[1..];
      }
    }
  }
}
