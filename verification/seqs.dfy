/** Order-preserving selection from a sequence, the shape of a Python filtering loop. */
module Seqs {

  /**
   The positions of the elements of `s` that `keep` accepts, in increasing order: every
   listed position is accepted, and every accepted position is listed.
   */
  function Kept<T>(s: seq<T>, keep: T -> bool): (ps: seq<nat>)
    ensures |ps| <= |s|
    ensures forall j :: 0 <= j < |ps| ==> ps[j] < |s| && keep(s[ps[j]])
    ensures forall j, k :: 0 <= j < k < |ps| ==> ps[j] < ps[k]
    ensures forall i :: 0 <= i < |s| && keep(s[i]) ==> i in ps
    decreases |s|
  {
    if |s| == 0 then []
    else
      var rest := Kept(s[1..], keep);
      var ps := (if keep(s[0]) then [0] else []) + Shift(rest);
      KeptCons(s, keep, rest, ps);
      ps
  }

  /** Every position moved one place on. */
  function Shift(ps: seq<nat>): (r: seq<nat>)
    ensures |r| == |ps|
    ensures forall j :: 0 <= j < |ps| ==> r[j] == ps[j] + 1
  {
    seq(|ps|, j requires 0 <= j < |ps| => ps[j] + 1)
  }

  lemma KeptCons<T>(s: seq<T>, keep: T -> bool, rest: seq<nat>, ps: seq<nat>)
    requires s != [] && |rest| <= |s| - 1
    requires forall j :: 0 <= j < |rest| ==> rest[j] < |s| - 1 && keep(s[1..][rest[j]])
    requires forall j, k :: 0 <= j < k < |rest| ==> rest[j] < rest[k]
    requires forall i :: 0 <= i < |s| - 1 && keep(s[1..][i]) ==> i in rest
    requires ps == (if keep(s[0]) then [0] else []) + Shift(rest)
    ensures |ps| <= |s|
    ensures forall j :: 0 <= j < |ps| ==> ps[j] < |s| && keep(s[ps[j]])
    ensures forall j, k :: 0 <= j < k < |ps| ==> ps[j] < ps[k]
    ensures forall i :: 0 <= i < |s| && keep(s[i]) ==> i in ps
  {
    KeptConsAccepted(s, keep, rest, ps);
    KeptConsRising(s, keep, rest, ps);
    KeptConsComplete(s, keep, rest, ps);
  }

  lemma KeptConsAccepted<T>(s: seq<T>, keep: T -> bool, rest: seq<nat>, ps: seq<nat>)
    requires s != []
    requires forall j :: 0 <= j < |rest| ==> rest[j] < |s| - 1 && keep(s[1..][rest[j]])
    requires ps == (if keep(s[0]) then [0] else []) + Shift(rest)
    ensures forall j :: 0 <= j < |ps| ==> ps[j] < |s| && keep(s[ps[j]])
  {
    var h := if keep(s[0]) then 1 else 0;
    forall j | 0 <= j < |ps| ensures ps[j] < |s| && keep(s[ps[j]]) {
      if j >= h {
        assert ps[j] == rest[j - h] + 1;
        assert s[ps[j]] == s[1..][rest[j - h]];
      }
    }
  }

  lemma KeptConsRising<T>(s: seq<T>, keep: T -> bool, rest: seq<nat>, ps: seq<nat>)
    requires s != []
    requires forall j, k :: 0 <= j < k < |rest| ==> rest[j] < rest[k]
    requires ps == (if keep(s[0]) then [0] else []) + Shift(rest)
    ensures forall j, k :: 0 <= j < k < |ps| ==> ps[j] < ps[k]
  {
    var h := if keep(s[0]) then 1 else 0;
    forall j, k | 0 <= j < k < |ps| ensures ps[j] < ps[k] {
      assert ps[k] == rest[k - h] + 1;
      if j >= h {
        assert ps[j] == rest[j - h] + 1;
      }
    }
  }

  lemma KeptConsComplete<T>(s: seq<T>, keep: T -> bool, rest: seq<nat>, ps: seq<nat>)
    requires s != []
    requires forall i :: 0 <= i < |s| - 1 && keep(s[1..][i]) ==> i in rest
    requires ps == (if keep(s[0]) then [0] else []) + Shift(rest)
    ensures forall i :: 0 <= i < |s| && keep(s[i]) ==> i in ps
  {
    var h := if keep(s[0]) then 1 else 0;
    forall i | 0 <= i < |s| && keep(s[i]) ensures i in ps {
      if i > 0 {
        assert s[1..][i - 1] == s[i];
        var j :| 0 <= j < |rest| && rest[j] == i - 1;
        assert ps[h + j] == i;
      }
    }
  }

  /**
   The step of every filtering loop: if `rest` maps the kept elements of `s[1..]` through `f`,
   then putting `f(s[0])` in front when `s[0]` is kept maps the kept elements of `s`.
   */
  lemma KeptStep<T, U>(s: seq<T>, keep: T -> bool, f: T -> U, rest: seq<U>, r: seq<U>)
    requires s != []
    requires |rest| == |Kept(s[1..], keep)|
    requires forall j :: 0 <= j < |rest| ==> rest[j] == f(s[1..][Kept(s[1..], keep)[j]])
    requires r == (if keep(s[0]) then [f(s[0])] else []) + rest
    ensures |r| == |Kept(s, keep)|
    ensures forall j :: 0 <= j < |r| ==> r[j] == f(s[Kept(s, keep)[j]])
  {
    var ks := Kept(s[1..], keep);
    var ps := Kept(s, keep);
    assert ps == (if keep(s[0]) then [0] else []) + Shift(ks);
    if keep(s[0]) {
      MapStepKept(s, f, ks, ps, rest, r);
    } else {
      MapStepDropped(s, f, ks, ps, rest, r);
    }
  }

  lemma MapStepKept<T, U>(s: seq<T>, f: T -> U, ks: seq<nat>, ps: seq<nat>, rest: seq<U>, r: seq<U>)
    requires s != [] && |rest| == |ks|
    requires forall j :: 0 <= j < |ks| ==> ks[j] < |s| - 1 && rest[j] == f(s[1..][ks[j]])
    requires ps == [0] + Shift(ks) && r == [f(s[0])] + rest
    ensures |r| == |ps|
    ensures forall j :: 0 <= j < |r| ==> ps[j] < |s| && r[j] == f(s[ps[j]])
  {
    forall j | 0 <= j < |r| ensures ps[j] < |s| && r[j] == f(s[ps[j]]) {
      if j > 0 {
        assert r[j] == rest[j - 1] && ps[j] == ks[j - 1] + 1;
        assert s[ps[j]] == s[1..][ks[j - 1]];
      }
    }
  }

  lemma MapStepDropped<T, U>(s: seq<T>, f: T -> U, ks: seq<nat>, ps: seq<nat>, rest: seq<U>, r: seq<U>)
    requires s != [] && |rest| == |ks|
    requires forall j :: 0 <= j < |ks| ==> ks[j] < |s| - 1 && rest[j] == f(s[1..][ks[j]])
    requires ps == Shift(ks) && r == rest
    ensures |r| == |ps|
    ensures forall j :: 0 <= j < |r| ==> ps[j] < |s| && r[j] == f(s[ps[j]])
  {
    forall j | 0 <= j < |r| ensures ps[j] < |s| && r[j] == f(s[ps[j]]) {
      assert ps[j] == ks[j] + 1;
      assert s[ps[j]] == s[1..][ks[j]];
    }
  }
}
