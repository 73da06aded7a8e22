/** Picking the present values out of a sequence of optional values, and
    the positions they came from. */
module Options {
  import opened Wrappers

  /** The present values, in order. */
  function Somes<T>(xs: seq<Option<T>>): seq<T> {
    if xs == [] then []
    else (match xs[0] case Some(v) => [v] case None => []) + Somes(xs[1..])
  }

  /** Every index moved one place on. */
  function Shift(idx: seq<nat>): (r: seq<nat>)
    ensures |r| == |idx| && forall j :: 0 <= j < |r| ==> r[j] == idx[j] + 1
  {
    seq(|idx|, j requires 0 <= j < |idx| => idx[j] + 1)
  }

  /** The positions of the present values, in order. */
  function SomeIndices<T>(xs: seq<Option<T>>): seq<nat> {
    if xs == [] then []
    else (if xs[0].Some? then [0] else []) + Shift(SomeIndices(xs[1..]))
  }

  /** Strictly increasing indices. */
  predicate Increasing(idx: seq<nat>) {
    forall j, k :: 0 <= j < k < |idx| ==> idx[j] < idx[k]
  }

  lemma ShiftHas(idx: seq<nat>, x: nat)
    requires x in idx
    ensures x + 1 in Shift(idx)
  {
    var j :| 0 <= j < |idx| && idx[j] == x;
    assert Shift(idx)[j] == x + 1;
  }

  /** The j-th present value sits at the j-th recorded position. */
  lemma {:induction false} SomeIndicesSound<T>(xs: seq<Option<T>>)
    ensures var vs, idx := Somes(xs), SomeIndices(xs);
      && |idx| == |vs|
      && (forall j :: 0 <= j < |idx| ==> idx[j] < |xs| && xs[idx[j]] == Some(vs[j]))
    decreases |xs|
  {
    if xs != [] {
      var tail := xs[1..];
      SomeIndicesSound(tail);
      var vs, idx := Somes(xs), SomeIndices(xs);
      var tv, ti := Somes(tail), SomeIndices(tail);
      var sh := Shift(ti);
      var head: seq<nat> := if xs[0].Some? then [0] else [];
      var hv: seq<T> := if xs[0].Some? then [xs[0].value] else [];
      assert idx == head + sh;
      assert vs == hv + tv;
      assert |head| == |hv|;
      forall j | 0 <= j < |idx|
        ensures idx[j] < |xs| && xs[idx[j]] == Some(vs[j])
      {
        var h := |head|;
        if j >= h {
          assert idx[j] == sh[j - h] == ti[j - h] + 1;
          assert vs[j] == tv[j - h];
          assert xs[idx[j]] == tail[ti[j - h]];
        } else {
          assert idx[j] == 0 && vs[j] == xs[0].value;
        }
      }
    }
  }

  lemma {:induction false} SomeIndicesIncreasing<T>(xs: seq<Option<T>>)
    ensures Increasing(SomeIndices(xs))
    decreases |xs|
  {
    if xs != [] {
      SomeIndicesIncreasing(xs[1..]);
      var ti := SomeIndices(xs[1..]);
      var sh := Shift(ti);
      var head: seq<nat> := if xs[0].Some? then [0] else [];
      var idx := SomeIndices(xs);
      assert idx == head + sh;
      assert |idx| == |head| + |ti|;
      forall j, k | 0 <= j < k < |idx|
        ensures idx[j] < idx[k]
      {
        assert Increasing(ti);
        var h := |head|;
        assert idx[k] == sh[k - h] == ti[k - h] + 1;
        if j >= h {
          assert idx[j] == sh[j - h] == ti[j - h] + 1;
          assert ti[j - h] < ti[k - h];
        } else {
          assert idx[j] == 0;
        }
      }
    }
  }

  lemma {:induction false} SomeIndicesComplete<T>(xs: seq<Option<T>>)
    ensures forall i :: 0 <= i < |xs| && xs[i].Some? ==> i in SomeIndices(xs)
    decreases |xs|
  {
    if xs != [] {
      var tail := xs[1..];
      SomeIndicesComplete(tail);
      var ti := SomeIndices(tail);
      var sh := Shift(ti);
      var head: seq<nat> := if xs[0].Some? then [0] else [];
      var idx := SomeIndices(xs);
      assert idx == head + sh;
      forall i | 0 <= i < |xs| && xs[i].Some?
        ensures i in idx
      {
        if i > 0 {
          assert xs[i] == tail[i - 1];
          ShiftHas(ti, i - 1);
          assert i in sh;
        } else {
          assert idx[0] == 0;
        }
      }
    }
  }
}
