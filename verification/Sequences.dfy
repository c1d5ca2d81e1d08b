/** What the other modules share: optional values, and one sequence standing inside another. */
module Sequences {

  datatype Option<T> = None | Some(value: T)

  /** The sequence t stands at position i of s. */
  predicate At<T(==)>(s: seq<T>, i: nat, t: seq<T>) {
    i + |t| <= |s| && forall k {:trigger t[k]} :: 0 <= k < |t| ==> s[i + k] == t[k]
  }

  lemma AtConcat<T>(s: seq<T>, i: nat, t: seq<T>, u: seq<T>)
    requires At(s, i, t + u)
    ensures At(s, i, t) && At(s, i + |t|, u)
  {
    forall k | 0 <= k < |t|
      ensures s[i + k] == t[k]
    {
      assert t[k] == (t + u)[k];
    }
    forall k | 0 <= k < |u|
      ensures s[i + |t| + k] == u[k]
    {
      assert u[k] == (t + u)[|t| + k];
    }
  }

  lemma AtOne<T>(s: seq<T>, i: nat, x: T)
    requires At(s, i, [x])
    ensures i < |s| && s[i] == x
  {
    assert [x][0] == x;
  }

  lemma AtSlice<T>(s: seq<T>, i: nat, t: seq<T>)
    requires At(s, i, t)
    ensures s[i..i + |t|] == t
  {
  }
}
