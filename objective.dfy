/** The subset selection objective of one latent class: a mutable n-by-n
    similarity matrix held in an array, and a significance threshold. */
module Objective {
  import opened Coverage

  /** The contents of `a` as a matrix value. */
  function Snapshot(a: array2<real>): (m: Matrix)
    reads a
    ensures |m| == a.Length0
    ensures forall r :: 0 <= r < |m| ==> |m[r]| == a.Length1
    ensures forall r, c :: 0 <= r < a.Length0 && 0 <= c < a.Length1 ==> m[r][c] == a[r, c]
  {
    seq(a.Length0, r requires 0 <= r < a.Length0 reads a =>
      seq(a.Length1, c requires 0 <= c < a.Length1 reads a => a[r, c]))
  }

  /** A fresh array with the same contents as `src` (numpy's `copy`). */
  method CopyMatrix(src: array2<real>) returns (dst: array2<real>)
    ensures fresh(dst)
    ensures Snapshot(dst) == Snapshot(src)
  {
    dst := new real[src.Length0, src.Length1];
    forall r, c | 0 <= r < src.Length0 && 0 <= c < src.Length1 {
      dst[r, c] := src[r, c];
    }
    assert forall r :: 0 <= r < src.Length0 ==> Snapshot(dst)[r] == Snapshot(src)[r];
  }

  class SubsetSelectionObjective {
    var distance: array2<real>
    var threshold: real

    /** Keeps a reference to `distance`, as the source does: the matrix is
        not copied here, so the caller decides whether it is shared. */
    constructor (distance: array2<real>, threshold: real)
      ensures this.distance == distance && this.threshold == threshold
    {
      this.distance := distance;
      this.threshold := threshold;
    }

    /** The matrix currently held. */
    function Matrix(): (m: Matrix)
      reads this, distance
      ensures m == Snapshot(distance)
    {
      Snapshot(distance)
    }

    /** The marginal gain of `i` given the selected list `sset`: the masked sum
        of row `i`, minus the sum of column `i` over the rows of `sset`. */
    function Inc(sset: seq<nat>, i: nat): (r: real)
      reads this, distance
      requires i < distance.Length0 && i < distance.Length1
      requires forall k :: 0 <= k < |sset| ==> sset[k] < distance.Length0
      ensures r == Gain(Snapshot(distance), threshold, sset, i)
      ensures sset == [] ==> r == Sum(Significant(Snapshot(distance)[i], threshold))
    {
      var m := Snapshot(distance);
      MaskedSum(m[i], threshold);
      Sum(Masked(m[i], threshold)) - Sum(Column(m, sset, i))
    }

    /** Commits `i`: zeroes row `i` of the matrix in place. */
    method Add(i: nat)
      requires i < distance.Length0
      modifies distance
      ensures Snapshot(distance) == ZeroRow(old(Snapshot(distance)), i)
    {
      forall c | 0 <= c < distance.Length1 {
        distance[i, c] := 0.0;
      }
      ghost var before := old(Snapshot(distance));
      ghost var after := Snapshot(distance);
      assert forall r :: 0 <= r < |after| ==> after[r] == ZeroRow(before, i)[r];
    }
  }

  /** Two commits of the same element leave the matrix as one does. */
  method AddTwice(f: SubsetSelectionObjective, i: nat)
    requires i < f.distance.Length0
    modifies f.distance
    ensures f.Matrix() == ZeroRow(old(f.Matrix()), i)
  {
    f.Add(i);
    f.Add(i);
    ZeroRowIdempotent(old(f.Matrix()), i);
  }
}
