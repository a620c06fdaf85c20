/** The "first that answers" loop that the detectors run over registry keys,
    sub-folders and base folders: try each element in order and return the
    first answer, or nothing when no element answers. */
module Scan {
  import opened Wrappers

  /** The answer of the first element of `xs` for which `f` answers. */
  function First<T, U(==)>(xs: seq<T>, f: T -> Option<U>): (r: Option<U>)
    ensures r.None? <==> forall i :: 0 <= i < |xs| ==> f(xs[i]).None?
    ensures r.Some? ==> exists i :: 0 <= i < |xs| && r == f(xs[i]) && forall j :: 0 <= j < i ==> f(xs[j]).None?
  {
    if |xs| == 0 then None
    else if f(xs[0]).Some? then f(xs[0])
    else
      var r := First(xs[1..], f);
      assert forall i :: 0 < i < |xs| ==> xs[i] == xs[1..][i - 1];
      if r.Some? then
        var i :| 0 <= i < |xs[1..]| && r == f(xs[1..][i]) && forall j :: 0 <= j < i ==> f(xs[1..][j]).None?;
        assert r == f(xs[i + 1]);
        r
      else r
  }
}
