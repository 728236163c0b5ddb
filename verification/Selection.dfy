/** What a filter keeps, said without saying how: the kept elements, each once for every
    position that qualifies, in the order of their positions. */
module Selections {

  predicate Ascending(ix: seq<nat>) {
    forall j, k | 0 <= j < k < |ix| :: ix[j] < ix[k]
  }

  /** `ix` lists, ascending, exactly the positions of `all` that qualify; `part` is what
      stands there. */
  ghost predicate Picks<T>(ix: seq<nat>, part: seq<T>, all: seq<T>, p: T -> bool) {
    && Ascending(ix) && |ix| == |part|
    && (forall k | 0 <= k < |ix| :: ix[k] < |all| && part[k] == all[ix[k]])
    && (forall i: nat | i < |all| :: i in ix <==> p(all[i]))
  }

  ghost predicate IsSelection<T>(part: seq<T>, all: seq<T>, p: T -> bool) {
    exists ix :: Picks(ix, part, all, p)
  }

  lemma SelectionOfNothing<T>(part: seq<T>, p: T -> bool)
    ensures IsSelection(part, [], p) <==> part == []
  {
    var none: seq<T> := [];
    if IsSelection(part, none, p) {
      var ix :| Picks(ix, part, none, p);
      NotLonger(ix, |ix|, |none|);
    }
    assert Picks([], none, none, p);
  }

  lemma {:induction false} NotLonger(ix: seq<nat>, k: nat, n: nat)
    requires Ascending(ix) && k <= |ix| && forall j | 0 <= j < |ix| :: ix[j] < n
    ensures k <= n && (k > 0 ==> ix[k - 1] >= k - 1)
  {
    if k > 0 {
      NotLonger(ix, k - 1, n);
      assert k > 1 ==> ix[k - 2] < ix[k - 1];
      assert ix[k - 1] < n;
    }
  }

  lemma InAppend(ix: seq<nat>, n: nat, i: nat)
    ensures i in ix + [n] <==> i in ix || i == n
  {
  }

  function Shifted(ix: seq<nat>): (jx: seq<nat>)
    ensures |jx| == |ix| && forall k | 0 <= k < |ix| :: jx[k] == ix[k] + 1
  {
    seq(|ix|, k requires 0 <= k < |ix| => ix[k] + 1)
  }

  lemma InShifted(ix: seq<nat>, i: nat)
    ensures i in Shifted(ix) <==> i > 0 && i - 1 in ix
    ensures i in [0] + Shifted(ix) <==> i == 0 || i - 1 in ix
  {
    if i > 0 && i - 1 in ix {
      var k :| 0 <= k < |ix| && ix[k] == i - 1;
      assert Shifted(ix)[k] == i;
    }
  }

  lemma ShiftedAscends(ix: seq<nat>)
    requires Ascending(ix)
    ensures Ascending(Shifted(ix)) && Ascending([0] + Shifted(ix))
  {
  }

  lemma PrependedAt<T>(all: seq<T>, x: T, i: nat)
    requires i <= |all|
    ensures ([x] + all)[i] == if i == 0 then x else all[i - 1]
  {
  }

  lemma PicksSkipping<T>(ix: seq<nat>, part: seq<T>, all: seq<T>, x: T, p: T -> bool)
    requires Picks(ix, part, all, p) && !p(x)
    ensures Picks(Shifted(ix), part, [x] + all, p)
  {
    var jx, more := Shifted(ix), [x] + all;
    ShiftedAscends(ix);
    forall k | 0 <= k < |jx| ensures jx[k] < |more| && part[k] == more[jx[k]] {
      PrependedAt(all, x, jx[k]);
    }
    forall i: nat | i < |more| ensures i in jx <==> p(more[i]) {
      InShifted(ix, i);
      PrependedAt(all, x, i);
    }
    hide Ascending;
  }

  lemma PicksTaking<T>(ix: seq<nat>, part: seq<T>, all: seq<T>, x: T, p: T -> bool)
    requires Picks(ix, part, all, p) && p(x)
    ensures Picks([0] + Shifted(ix), [x] + part, [x] + all, p)
  {
    var jx, more := [0] + Shifted(ix), [x] + all;
    ShiftedAscends(ix);
    forall k | 0 <= k < |jx| ensures jx[k] < |more| && ([x] + part)[k] == more[jx[k]] {
      if k > 0 {
        assert jx[k] == ix[k - 1] + 1 && ([x] + part)[k] == part[k - 1];
        PrependedAt(all, x, jx[k]);
      }
    }
    forall i: nat | i < |more| ensures i in jx <==> p(more[i]) {
      InShifted(ix, i);
      PrependedAt(all, x, i);
    }
    hide Ascending;
  }

  lemma SelectionPrepend<T>(part: seq<T>, all: seq<T>, x: T, p: T -> bool)
    requires IsSelection(part, all, p)
    ensures IsSelection((if p(x) then [x] else []) + part, [x] + all, p)
  {
    hide Picks;
    var ix :| Picks(ix, part, all, p);
    if p(x) {
      PicksTaking(ix, part, all, x, p);
    } else {
      PicksSkipping(ix, part, all, x, p);
      assert [] + part == part;
    }
  }

  lemma PicksLast(ix: seq<nat>, n: nat)
    requires Ascending(ix) && n in ix && forall k | 0 <= k < |ix| :: ix[k] <= n
    ensures var m := |ix| - 1;
      && ix[m] == n && Ascending(ix[..m])
      && forall i: nat | i < n :: i in ix[..m] <==> i in ix
  {
    var m := |ix| - 1;
    var k :| 0 <= k < |ix| && ix[k] == n;
    assert ix[m] <= n;
    assert k == m;
    forall i: nat | i < n ensures i in ix[..m] <==> i in ix {
      assert ix == ix[..m] + [n];
      InAppend(ix[..m], n, i);
    }
  }

  lemma PicksInit<T>(ix: seq<nat>, part: seq<T>, all: seq<T>, x: T, p: T -> bool) returns (jx: seq<nat>)
    requires Picks(ix, part, all + [x], p)
    ensures p(x) ==> part != [] && part[|part| - 1] == x && Picks(jx, part[..|part| - 1], all, p)
    ensures !p(x) ==> Picks(jx, part, all, p)
  {
    var n := |all|;
    assert (all + [x])[n] == x;
    assert forall i: nat | i < n :: (all + [x])[i] == all[i];
    if p(x) {
      assert n in ix;
      PicksLast(ix, n);
      jx := ix[..|ix| - 1];
      assert forall j | 0 <= j < |jx| :: ix[j] < n;
    } else {
      jx := ix;
      assert n !in ix;
      forall k | 0 <= k < |ix| ensures ix[k] < n { assert ix[k] in ix; }
    }
  }

  lemma SelectionStep<T>(part: seq<T>, all: seq<T>, p: T -> bool)
    requires all != [] && IsSelection(part, all, p)
    ensures var n := |all| - 1;
      if p(all[n]) then part != [] && part[|part| - 1] == all[n] && IsSelection(part[..|part| - 1], all[..n], p)
      else IsSelection(part, all[..n], p)
  {
    hide Picks;
    var n := |all| - 1;
    assert all == all[..n] + [all[n]];
    var ix :| Picks(ix, part, all, p);
    var jx := PicksInit(ix, part, all[..n], all[n], p);
    if p(all[n]) {
      assert IsSelection(part[..|part| - 1], all[..n], p);
    } else {
      assert IsSelection(part, all[..n], p);
    }
  }

  /** There is only one. */
  lemma {:induction false} SelectionIsUnique<T>(part: seq<T>, other: seq<T>, all: seq<T>, p: T -> bool)
    requires IsSelection(part, all, p) && IsSelection(other, all, p)
    ensures part == other
    decreases |all|
  {
    hide IsSelection;
    if all == [] {
      SelectionOfNothing(part, p);
      SelectionOfNothing(other, p);
    } else {
      SelectionStep(part, all, p);
      SelectionStep(other, all, p);
      var n := |all| - 1;
      if p(all[n]) {
        SelectionIsUnique(part[..|part| - 1], other[..|other| - 1], all[..n], p);
      } else {
        SelectionIsUnique(part, other, all[..n], p);
      }
    }
  }
}
