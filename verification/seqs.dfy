/** Order-preserving scans over sequences.

    Every rule check of the service walks a list of element descriptors once
    and pushes one record for each element that fails the rule.  `Emit` is the
    declarative description of such a walk, `Positions` names the input
    positions that produced an output, and the lemmas below say how the two
    line up. */
module Seqs {

  function Id<T>(x: T): T { x }

  /** `make(x)` for every `x` of `xs` with `keep(x)`, in the order of `xs`. */
  function Emit<T, U>(xs: seq<T>, keep: T -> bool, make: T -> U): (r: seq<U>)
    ensures |r| <= |xs|
  {
    if |xs| == 0 then []
    else
      var n := |xs| - 1;
      Emit(xs[..n], keep, make) + (if keep(xs[n]) then [make(xs[n])] else [])
  }

  /** The elements of `xs` satisfying `keep`, in order. */
  function Filter<T>(xs: seq<T>, keep: T -> bool): seq<T>
  {
    Emit(xs, keep, Id)
  }

  /** The positions `i` of `xs` with `keep(xs[i])`, in increasing order. */
  function Positions<T>(xs: seq<T>, keep: T -> bool): (idx: seq<nat>)
    ensures forall k :: 0 <= k < |idx| ==> idx[k] < |xs| && keep(xs[idx[k]])
    ensures forall j, k :: 0 <= j < k < |idx| ==> idx[j] < idx[k]
    ensures forall i :: 0 <= i < |xs| && keep(xs[i]) ==> i in idx
  {
    if |xs| == 0 then []
    else
      var n := |xs| - 1;
      var before := Positions(xs[..n], keep);
      assert forall k :: 0 <= k < |before| ==> xs[..n][before[k]] == xs[before[k]];
      before + (if keep(xs[n]) then [n] else [])
  }

  /** Emitting over a concatenation emits over each part, in order. */
  lemma {:induction false} EmitAppend<T, U>(xs: seq<T>, ys: seq<T>, keep: T -> bool, make: T -> U)
    ensures Emit(xs + ys, keep, make) == Emit(xs, keep, make) + Emit(ys, keep, make)
  {
    if |ys| == 0 {
      assert xs + ys == xs;
    } else {
      var m := |ys| - 1;
      assert (xs + ys)[..|xs + ys| - 1] == xs + ys[..m];
      assert (xs + ys)[|xs + ys| - 1] == ys[m];
      EmitAppend(xs, ys[..m], keep, make);
    }
  }

  /** One step of a front-to-back walk: the first element's output, then the rest. */
  lemma EmitCons<T, U>(xs: seq<T>, keep: T -> bool, make: T -> U)
    requires |xs| > 0
    ensures Emit(xs, keep, make)
         == (if keep(xs[0]) then [make(xs[0])] else []) + Emit(xs[1..], keep, make)
  {
    assert xs == [xs[0]] + xs[1..];
    EmitAppend([xs[0]], xs[1..], keep, make);
    assert [xs[0]][..0] == [];
  }

  /** The k-th output is made from the k-th kept position. */
  lemma {:induction false} EmitAligned<T, U>(xs: seq<T>, keep: T -> bool, make: T -> U)
    ensures |Emit(xs, keep, make)| == |Positions(xs, keep)|
    ensures forall k :: 0 <= k < |Positions(xs, keep)| ==>
              Emit(xs, keep, make)[k] == make(xs[Positions(xs, keep)[k]])
  {
    if |xs| > 0 {
      var n := |xs| - 1;
      EmitAligned(xs[..n], keep, make);
      var before := Positions(xs[..n], keep);
      assert forall k :: 0 <= k < |before| ==> xs[..n][before[k]] == xs[before[k]];
    }
  }

  /** A value is emitted iff some kept element makes it. */
  lemma EmitMember<T, U>(xs: seq<T>, keep: T -> bool, make: T -> U, u: U)
    ensures u in Emit(xs, keep, make)
        <==> exists i :: 0 <= i < |xs| && keep(xs[i]) && make(xs[i]) == u
  {
    EmitAligned(xs, keep, make);
    var r, idx := Emit(xs, keep, make), Positions(xs, keep);
    if u in r {
      var k :| 0 <= k < |r| && r[k] == u;
      assert keep(xs[idx[k]]) && make(xs[idx[k]]) == u;
    }
    if i :| 0 <= i < |xs| && keep(xs[i]) && make(xs[i]) == u {
      var k :| 0 <= k < |idx| && idx[k] == i;
      assert r[k] == u;
    }
  }

  /** Nothing is emitted iff no element is kept. */
  lemma EmitEmpty<T, U>(xs: seq<T>, keep: T -> bool, make: T -> U)
    ensures Emit(xs, keep, make) == [] <==> forall i :: 0 <= i < |xs| ==> !keep(xs[i])
  {
    EmitAligned(xs, keep, make);
    if i :| 0 <= i < |xs| && keep(xs[i]) {
      assert i in Positions(xs, keep);
    }
  }

  /** The number of kept positions is the number of elements satisfying `keep`. */
  lemma {:induction false} PositionsCount<T>(xs: seq<T>, keep: T -> bool)
    ensures |Positions(xs, keep)| == |KeptSet(xs, keep)|
  {
    if |xs| > 0 {
      var n := |xs| - 1;
      PositionsCount(xs[..n], keep);
      KeptSetSnoc(xs, keep);
    }
  }

  /** The positions of `xs` whose elements satisfy `keep`, as a set. */
  function KeptSet<T>(xs: seq<T>, keep: T -> bool): set<nat>
  {
    set i: nat | i < |xs| && keep(xs[i])
  }

  lemma KeptSetSnoc<T>(xs: seq<T>, keep: T -> bool)
    requires |xs| > 0
    ensures var n := |xs| - 1;
            |KeptSet(xs, keep)| == |KeptSet(xs[..n], keep)| + (if keep(xs[n]) then 1 else 0)
  {
    var n := |xs| - 1;
    var before := KeptSet(xs[..n], keep);
    var last: set<nat> := if keep(xs[n]) then {n} else {};
    assert KeptSet(xs, keep) == before + last;
  }

  /** Emitting produces exactly as many values as there are kept elements. */
  lemma EmitCount<T, U>(xs: seq<T>, keep: T -> bool, make: T -> U)
    ensures |Emit(xs, keep, make)| == |KeptSet(xs, keep)|
  {
    EmitAligned(xs, keep, make);
    PositionsCount(xs, keep);
  }
}
