/** The augmentation-similarity coverage objective, on matrix values.

    A matrix is a sequence of rows. The objective of one latent class is
    defined by its (mutable) similarity matrix `m` and a significance
    threshold `t`:
      - the gain of element `i` given the already selected list `sset` is the
        sum of the entries of row `i` that reach `t`, minus the sum of column
        `i` over the rows listed in `sset`;
      - committing element `i` zeroes row `i`.
 */
module Coverage {

  /** A dense matrix, row by row. */
  type Matrix = seq<seq<real>>

  function Sum(s: seq<real>): real
  {
    if s == [] then 0.0 else s[0] + Sum(s[1..])
  }

  /** The entries of `row` that reach the threshold `t`, in their order. */
  function Significant(row: seq<real>, t: real): (r: seq<real>)
    ensures |r| <= |row|
    ensures forall x :: x in r ==> x in row && x >= t
    ensures forall x :: x in row && x >= t ==> x in r
  {
    if row == [] then []
    else (if row[0] >= t then [row[0]] else []) + Significant(row[1..], t)
  }

  /** The elementwise product of `row` with the 0/1 mask `row >= t`. */
  function Masked(row: seq<real>, t: real): (r: seq<real>)
    ensures |r| == |row|
    ensures forall k :: 0 <= k < |r| ==> r[k] == if row[k] >= t then row[k] else 0.0
  {
    seq(|row|, k requires 0 <= k < |row| => row[k] * (if row[k] >= t then 1.0 else 0.0))
  }

  /** The entries `m[s][i]` for `s` in `sset`, in order (duplicates included). */
  function Column(m: Matrix, sset: seq<nat>, i: nat): (r: seq<real>)
    requires forall k :: 0 <= k < |sset| ==> sset[k] < |m| && i < |m[sset[k]]|
    ensures |r| == |sset|
    ensures forall k :: 0 <= k < |r| ==> r[k] == m[sset[k]][i]
  {
    seq(|sset|, k requires 0 <= k < |sset| => m[sset[k]][i])
  }

  /** Every index that `Gain` and `Column` touch exists. */
  predicate GainDefined(m: Matrix, sset: seq<nat>, i: nat)
  {
    && i < |m|
    && (forall r :: 0 <= r < |m| ==> i < |m[r]|)
    && (forall k :: 0 <= k < |sset| ==> sset[k] < |m|)
  }

  /** The marginal gain of `i` given `sset`: its significant row sum minus the
      coverage that the rows of `sset` already give it. */
  function Gain(m: Matrix, t: real, sset: seq<nat>, i: nat): (r: real)
    requires GainDefined(m, sset, i)
    ensures sset == [] ==> r == Sum(Significant(m[i], t))
    ensures (forall k :: 0 <= k < |sset| ==> m[sset[k]][i] >= 0.0) ==> r <= Sum(Significant(m[i], t))
  {
    var col := Column(m, sset, i);
    SumNonNegative(col);
    Sum(Significant(m[i], t)) - Sum(col)
  }

  /** A sum of non-negative entries is non-negative. */
  lemma {:induction false} SumNonNegative(s: seq<real>)
    ensures (forall k :: 0 <= k < |s| ==> s[k] >= 0.0) ==> Sum(s) >= 0.0
  {
    if s != [] {
      SumNonNegative(s[1..]);
      assert forall k :: 0 <= k < |s[1..]| ==> s[1..][k] == s[k + 1];
    }
  }

  /** Summing the masked row is summing its significant entries. */
  lemma {:induction false} MaskedSum(row: seq<real>, t: real)
    ensures Sum(Masked(row, t)) == Sum(Significant(row, t))
  {
    if row != [] {
      var head := if row[0] >= t then [row[0]] else [];
      assert Masked(row, t)[1..] == Masked(row[1..], t);
      MaskedSum(row[1..], t);
      assert Significant(row, t) == head + Significant(row[1..], t);
      SumAppend(head, Significant(row[1..], t));
    }
  }

  lemma {:induction false} SumAppend(a: seq<real>, b: seq<real>)
    ensures Sum(a + b) == Sum(a) + Sum(b)
  {
    if a != [] {
      assert (a + b)[0] == a[0] && (a + b)[1..] == a[1..] + b;
      SumAppend(a[1..], b);
    } else {
      assert a + b == b;
    }
  }

  lemma {:induction false} SumOfZeros(s: seq<real>)
    requires forall x :: x in s ==> x == 0.0
    ensures Sum(s) == 0.0
  {
    if s != [] {
      assert s[0] in s;
      assert forall x :: x in s[1..] ==> x in s;
      SumOfZeros(s[1..]);
    }
  }

  /** The matrix after committing `i`: row `i` is all zeros, the rest is as before. */
  function ZeroRow(m: Matrix, i: nat): (r: Matrix)
    requires i < |m|
    ensures |r| == |m| && |r[i]| == |m[i]|
    ensures forall c :: 0 <= c < |r[i]| ==> r[i][c] == 0.0
    ensures forall j :: 0 <= j < |m| && j != i ==> r[j] == m[j]
  {
    m[i := seq(|m[i]|, _ => 0.0)]
  }

  /** Committing the same element twice is committing it once. */
  lemma ZeroRowIdempotent(m: Matrix, i: nat)
    requires i < |m|
    ensures ZeroRow(ZeroRow(m, i), i) == ZeroRow(m, i)
  {
  }

  /** Commits do not depend on their order. */
  lemma ZeroRowCommutes(m: Matrix, i: nat, j: nat)
    requires i < |m| && j < |m|
    ensures ZeroRow(ZeroRow(m, i), j) == ZeroRow(ZeroRow(m, j), i)
  {
  }

  /** The matrix after committing every element of `sset`, first to last. */
  function CommitAll(m: Matrix, sset: seq<nat>): (r: Matrix)
    requires forall k :: 0 <= k < |sset| ==> sset[k] < |m|
    ensures |r| == |m|
    ensures forall j :: 0 <= j < |m| ==> |r[j]| == |m[j]|
    ensures forall k, c :: 0 <= k < |sset| && 0 <= c < |r[sset[k]]| ==> r[sset[k]][c] == 0.0
    ensures forall j :: 0 <= j < |m| && j !in sset ==> r[j] == m[j]
    decreases |sset|
  {
    if sset == [] then m
    else
      var r := CommitAll(ZeroRow(m, sset[0]), sset[1..]);
      assert forall k :: 1 <= k < |sset| ==> sset[k] == sset[1..][k - 1];
      assert forall j :: j !in sset ==> j != sset[0] && j !in sset[1..];
      r
  }

  /** Committing one more element after `sset` is one more row zeroed. */
  lemma {:induction false} CommitAllSnoc(m: Matrix, sset: seq<nat>, x: nat)
    requires forall k :: 0 <= k < |sset| ==> sset[k] < |m|
    requires x < |m|
    ensures CommitAll(m, sset + [x]) == ZeroRow(CommitAll(m, sset), x)
    decreases |sset|
  {
    if sset == [] {
      assert [] + [x] == [x] && [x][1..] == [];
    } else {
      assert (sset + [x])[0] == sset[0] && (sset + [x])[1..] == sset[1..] + [x];
      CommitAllSnoc(ZeroRow(m, sset[0]), sset[1..], x);
    }
  }

  /** Once every element of `sset` has been committed, nothing is subtracted any
      more: the gain of an uncommitted `i` is its significant row sum in the
      original matrix, and the gain of a committed one is 0. */
  lemma GainAfterCommits(m: Matrix, t: real, sset: seq<nat>, i: nat)
    requires GainDefined(m, sset, i)
    ensures GainDefined(CommitAll(m, sset), sset, i)
    ensures Sum(Column(CommitAll(m, sset), sset, i)) == 0.0
    ensures Gain(CommitAll(m, sset), t, sset, i)
         == if i in sset then 0.0 else Sum(Significant(m[i], t))
  {
    var c := CommitAll(m, sset);
    CommittedColumn(c, sset, i);
    if i in sset {
      var k :| 0 <= k < |sset| && sset[k] == i;
      CommittedRow(c[i], t);
    }
  }

  /** The column entries of committed rows sum to 0. */
  lemma CommittedColumn(c: Matrix, sset: seq<nat>, i: nat)
    requires forall k :: 0 <= k < |sset| ==> sset[k] < |c| && i < |c[sset[k]]|
    requires forall k, q :: 0 <= k < |sset| && 0 <= q < |c[sset[k]]| ==> c[sset[k]][q] == 0.0
    ensures Sum(Column(c, sset, i)) == 0.0
  {
    var col := Column(c, sset, i);
    assert forall x :: x in col ==> x == 0.0 by {
      forall x | x in col ensures x == 0.0 {
        var k :| 0 <= k < |col| && col[k] == x;
      }
    }
    SumOfZeros(col);
  }

  /** A zeroed row has no significant coverage left. */
  lemma CommittedRow(row: seq<real>, t: real)
    requires forall q :: 0 <= q < |row| ==> row[q] == 0.0
    ensures Sum(Significant(row, t)) == 0.0
  {
    assert forall x :: x in row ==> x == 0.0;
    SumOfZeros(Significant(row, t));
  }
}
