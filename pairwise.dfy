/** The blocked pairwise similarity matrix of two sequences of encodings.

    Both sequences are cut into row blocks `[i*b, (i+1)*b)` for
    `i = 0 .. n/b` (Python slices, so the last block is clamped to `n` and is
    empty when `b` divides `n`); every pair of blocks yields one sub-matrix and
    the grid of sub-matrices is assembled as `np.block` does. The similarity of
    two encodings is the uninterpreted `sim`.
 */
module Pairwise {
  import opened Coverage
  import opened Common

  /** `i * b`, written as repeated addition so that block arithmetic stays
      linear; `MulIsProduct` shows it is the product. */
  function Mul(i: nat, b: nat): nat
  {
    if i == 0 then 0 else Mul(i - 1, b) + b
  }

  lemma {:induction false} MulIsProduct(i: nat, b: nat)
    ensures Mul(i, b) == i * b
  {
    if i > 0 {
      MulIsProduct(i - 1, b);
      assert (i - 1) * b + b == i * b;
    }
  }

  lemma {:induction false} MulMonotone(i: nat, j: nat, b: nat)
    requires i <= j
    ensures Mul(i, b) <= Mul(j, b)
    decreases j
  {
    if i < j {
      MulMonotone(i, j - 1, b);
    }
  }

  /** `n // b` for `b > 0`, written as repeated subtraction; `QuotIsDiv`
      shows it is the quotient. */
  function Quot(n: nat, b: nat): nat
    requires b > 0
    decreases n
  {
    if n < b then 0 else Quot(n - b, b) + 1
  }

  /** The quotient is the number of whole `b`-blocks in `n`. */
  lemma {:induction false} QuotBounds(n: nat, b: nat)
    requires b > 0
    ensures Mul(Quot(n, b), b) <= n < Mul(Quot(n, b) + 1, b)
    decreases n
  {
    if n >= b {
      QuotBounds(n - b, b);
    }
  }

  lemma QuotIsDiv(n: nat, b: nat)
    requires b > 0
    ensures Quot(n, b) == n / b
    ensures n - Mul(Quot(n, b), b) == n % b
  {
    QuotBounds(n, b);
    MulIsProduct(Quot(n, b), b);
    MulIsProduct(Quot(n, b) + 1, b);
    DivFloor(n, b, Quot(n, b));
  }

  /** The floor of `n / b` is the only `q` with `q*b <= n < (q+1)*b`. */
  lemma DivFloor(n: nat, b: nat, q: nat)
    requires b > 0 && q * b <= n < (q + 1) * b
    ensures n / b == q && n % b == n - q * b
  {
    var d := n / b;
    assert d * b + n % b == n;
    if q < d {
      ProductMonotone(q + 1, d, b);
      assert false;
    }
    if q > d {
      assert (d + 1) * b == d * b + b;
      ProductMonotone(d + 1, q, b);
      assert false;
    }
  }

  /** `s[i*b:(i+1)*b]`: the slice the source takes for block `i`. */
  function Block<T>(s: seq<T>, i: nat, b: nat): (r: seq<T>)
    ensures |r| <= b
  {
    Slice(s, Mul(i, b), Mul(i + 1, b))
  }

  /** `range(n // b + 1)`: the number of blocks the source iterates over. */
  function BlockCount(n: nat, b: nat): (r: nat)
    requires b > 0
    ensures 1 <= r && Mul(r - 1, b) <= n < Mul(r, b)
  {
    QuotBounds(n, b);
    Quot(n, b) + 1
  }

  /** First index of block `i` of a sequence of length `n`. */
  function BlockStart(i: nat, b: nat, n: nat): nat
  {
    Min(Mul(i, b), n)
  }

  /** One past the last index of block `i` of a sequence of length `n`. */
  function BlockEnd(i: nat, b: nat, n: nat): nat
  {
    Min(Mul(i + 1, b), n)
  }

  /** Block `i` starts at `i * b`, as long as it is one of the blocks. */
  lemma BlockStartIsProduct(n: nat, b: nat, i: nat)
    requires b > 0 && i < BlockCount(n, b)
    ensures BlockStart(i, b, n) == i * b
  {
    BlockStep(n, b, i);
    MulIsProduct(i, b);
  }

  /** Blocks come in order and do not overlap. */
  lemma BlocksOrdered(n: nat, b: nat, i: nat, j: nat)
    requires b > 0 && i < j < BlockCount(n, b)
    ensures BlockEnd(i, b, n) <= BlockStart(j, b, n)
  {
    MulMonotone(i + 1, j, b);
  }

  /** Every block but the last holds exactly `b` indices. */
  lemma BlockFull(n: nat, b: nat, i: nat)
    requires b > 0 && i + 1 < BlockCount(n, b)
    ensures BlockEnd(i, b, n) - BlockStart(i, b, n) == b
  {
    QuotBounds(n, b);
    MulMonotone(i + 1, Quot(n, b), b);
  }

  /** The last block ends at `n` and holds the `n % b` remaining indices. */
  lemma LastBlock(n: nat, b: nat)
    requires b > 0
    ensures BlockEnd(BlockCount(n, b) - 1, b, n) == n
    ensures BlockEnd(BlockCount(n, b) - 1, b, n) - BlockStart(BlockCount(n, b) - 1, b, n) == n % b
  {
    QuotBounds(n, b);
    QuotIsDiv(n, b);
  }

  /** Index `r` lies in block `r // b`, which is one of the blocks. */
  lemma BlockOf(n: nat, b: nat, r: nat)
    requires b > 0 && r < n
    ensures Quot(r, b) < BlockCount(n, b)
    ensures BlockStart(Quot(r, b), b, n) <= r < BlockEnd(Quot(r, b), b, n)
  {
    var q := Quot(r, b);
    QuotBounds(r, b);
    QuotBounds(n, b);
    if q > Quot(n, b) {
      MulMonotone(Quot(n, b) + 1, q, b);
      assert false;
    }
  }

  /** Block `i` lies within `0 .. n`, and ends where block `i + 1` starts
      (which is `n` once `i` is the last block). */
  lemma BlockStep(n: nat, b: nat, i: nat)
    requires b > 0 && i < BlockCount(n, b)
    ensures BlockStart(i, b, n) == Mul(i, b)
    ensures BlockStart(i, b, n) <= BlockEnd(i, b, n) <= n
    ensures BlockEnd(i, b, n) == BlockStart(i + 1, b, n)
    ensures i + 1 == BlockCount(n, b) ==> BlockEnd(i, b, n) == n
  {
    QuotBounds(n, b);
    MulMonotone(i, Quot(n, b), b);
  }

  /** The Python slice the source takes for block `i` is that block's range. */
  lemma BlockSlice<T>(s: seq<T>, i: nat, b: nat)
    requires b > 0 && i < BlockCount(|s|, b)
    ensures BlockStart(i, b, |s|) <= BlockEnd(i, b, |s|) <= |s|
    ensures Block(s, i, b) == s[BlockStart(i, b, |s|)..BlockEnd(i, b, |s|)]
  {
    BlockStep(|s|, b, i);
  }

  /** The similarity of every element of `e` with every element of `et`:
      the (un-blocked) matrix the blocked computation must reproduce. */
  function SimilarityBlock<V>(e: seq<V>, et: seq<V>, sim: (V, V) -> real): (m: Matrix)
    ensures |m| == |e|
  {
    seq(|e|, r requires 0 <= r < |e| => seq(|et|, c requires 0 <= c < |et| => sim(e[r], et[c])))
  }

  /** The direct matrix is `|e|` by `|et|`, entry `(r, c)` being `sim(e[r], et[c])`. */
  lemma SimilarityEntries<V>(e: seq<V>, et: seq<V>, sim: (V, V) -> real)
    ensures forall r :: 0 <= r < |e| ==> |SimilarityBlock(e, et, sim)[r]| == |et|
    ensures forall r, c :: 0 <= r < |e| && 0 <= c < |et| ==> SimilarityBlock(e, et, sim)[r][c] == sim(e[r], et[c])
  {
  }

  /** Two matrices with the same number of rows, side by side. */
  function HJoin(a: Matrix, b: Matrix): Matrix
    requires |a| == |b|
  {
    seq(|a|, r requires 0 <= r < |a| => a[r] + b[r])
  }

  predicate SameHeight(row: seq<Matrix>)
  {
    forall j :: 0 <= j < |row| ==> |row[j]| == |row[0]|
  }

  /** One row of blocks joined left to right (`np.block` on an inner list). */
  function HConcat(row: seq<Matrix>): (m: Matrix)
    requires |row| > 0 && SameHeight(row)
    ensures |m| == |row[0]|
  {
    if |row| == 1 then row[0]
    else HJoin(HConcat(row[..|row| - 1]), row[|row| - 1])
  }

  predicate WellFormedGrid(grid: seq<seq<Matrix>>)
  {
    forall p :: 0 <= p < |grid| ==> |grid[p]| > 0 && SameHeight(grid[p])
  }

  /** The total height of a grid: the sum of the heights of its block rows. */
  function Height(grid: seq<seq<Matrix>>): nat
    requires WellFormedGrid(grid)
  {
    if grid == [] then 0 else Height(grid[..|grid| - 1]) + |grid[|grid| - 1][0]|
  }

  /** `np.block`: every row of blocks joined left to right, then stacked. */
  function NpBlock(grid: seq<seq<Matrix>>): (m: Matrix)
    requires WellFormedGrid(grid)
    ensures |m| == Height(grid)
    ensures grid != [] ==> NpBlock(grid[..|grid| - 1]) <= m
  {
    if grid == [] then []
    else NpBlock(grid[..|grid| - 1]) + HConcat(grid[|grid| - 1])
  }

  /** The source's inner loop: block `i` of the rows against every column block. */
  function BlockRow<V>(e: seq<V>, z2: seq<V>, b: nat, sim: (V, V) -> real): (row: seq<Matrix>)
    requires b > 0
    ensures |row| == BlockCount(|z2|, b) && SameHeight(row)
    ensures forall j :: 0 <= j < |row| ==> |row[j]| == |e|
  {
    seq(BlockCount(|z2|, b), j requires 0 <= j < BlockCount(|z2|, b) =>
      SimilarityBlock(e, Block(z2, j, b), sim))
  }

  /** The source's outer loop: the whole grid of blocks. */
  function Grid<V>(z1: seq<V>, z2: seq<V>, b: nat, sim: (V, V) -> real): (grid: seq<seq<Matrix>>)
    requires b > 0
    ensures |grid| == BlockCount(|z1|, b) && WellFormedGrid(grid)
  {
    seq(BlockCount(|z1|, b), i requires 0 <= i < BlockCount(|z1|, b) =>
      BlockRow(Block(z1, i, b), z2, b, sim))
  }

  lemma SideBySide<V>(e: seq<V>, x: seq<V>, y: seq<V>, sim: (V, V) -> real)
    ensures HJoin(SimilarityBlock(e, x, sim), SimilarityBlock(e, y, sim)) == SimilarityBlock(e, x + y, sim)
  {
    var l := HJoin(SimilarityBlock(e, x, sim), SimilarityBlock(e, y, sim));
    var r := SimilarityBlock(e, x + y, sim);
    forall p | 0 <= p < |e|
      ensures l[p] == r[p]
    {
      assert forall c :: 0 <= c < |x + y| ==> l[p][c] == r[p][c];
    }
  }

  lemma Stacked<V>(x: seq<V>, y: seq<V>, et: seq<V>, sim: (V, V) -> real)
    ensures SimilarityBlock(x, et, sim) + SimilarityBlock(y, et, sim) == SimilarityBlock(x + y, et, sim)
  {
    var l := SimilarityBlock(x, et, sim) + SimilarityBlock(y, et, sim);
    var r := SimilarityBlock(x + y, et, sim);
    assert forall p :: 0 <= p < |x + y| ==> l[p] == r[p];
  }

  /** Joining one more row block: `np.block`'s horizontal step. */
  lemma HConcatStep(row: seq<Matrix>, k: nat)
    requires 2 <= k <= |row| && SameHeight(row)
    ensures SameHeight(row[..k - 1]) && SameHeight(row[..k])
    ensures |HConcat(row[..k - 1])| == |row[k - 1]|
    ensures HConcat(row[..k]) == HJoin(HConcat(row[..k - 1]), row[k - 1])
  {
    assert row[..k][..k - 1] == row[..k - 1];
  }

  /** A row of one block joins to that block. */
  lemma HConcatFirst(row: seq<Matrix>)
    requires 1 <= |row| && SameHeight(row)
    ensures SameHeight(row[..1]) && HConcat(row[..1]) == row[0]
  {
    assert row[..1] == [row[0]];
  }

  /** Stacking one more block row: `np.block`'s vertical step. */
  lemma NpBlockStep(grid: seq<seq<Matrix>>, k: nat)
    requires 1 <= k <= |grid| && WellFormedGrid(grid)
    ensures WellFormedGrid(grid[..k - 1]) && WellFormedGrid(grid[..k])
    ensures NpBlock(grid[..k]) == NpBlock(grid[..k - 1]) + HConcat(grid[k - 1])
  {
    assert grid[..k][..k - 1] == grid[..k - 1];
  }

  /** Similarities against `z2[..lo]`, joined with those against
      `z2[lo..hi]`, are the similarities against `z2[..hi]`. */
  lemma JoinStep<V>(e: seq<V>, z2: seq<V>, sim: (V, V) -> real, lo: nat, hi: nat)
    requires lo <= hi <= |z2|
    ensures HJoin(SimilarityBlock(e, z2[..lo], sim), SimilarityBlock(e, z2[lo..hi], sim))
         == SimilarityBlock(e, z2[..hi], sim)
  {
    assert z2[..lo] + z2[lo..hi] == z2[..hi];
    SideBySide(e, z2[..lo], z2[lo..hi], sim);
  }

  /** The rows of `z1[..lo]` stacked on those of `z1[lo..hi]` are the rows of
      `z1[..hi]`. */
  lemma StackStep<V>(z1: seq<V>, z2: seq<V>, sim: (V, V) -> real, lo: nat, hi: nat)
    requires lo <= hi <= |z1|
    ensures SimilarityBlock(z1[..lo], z2, sim) + SimilarityBlock(z1[lo..hi], z2, sim)
         == SimilarityBlock(z1[..hi], z2, sim)
  {
    assert z1[..lo] + z1[lo..hi] == z1[..hi];
    Stacked(z1[..lo], z1[lo..hi], z2, sim);
  }

  /** Block `j` of a block row is the similarity of `e` with column block `j`. */
  lemma BlockRowAt<V>(e: seq<V>, z2: seq<V>, b: nat, sim: (V, V) -> real, j: nat)
    requires b > 0 && j < BlockCount(|z2|, b)
    ensures BlockStart(j, b, |z2|) <= BlockEnd(j, b, |z2|) <= |z2|
    ensures BlockRow(e, z2, b, sim)[j] == SimilarityBlock(e, z2[BlockStart(j, b, |z2|)..BlockEnd(j, b, |z2|)], sim)
  {
    BlockSlice(z2, j, b);
  }

  /** One step of the row assembly, for any row of blocks. */
  lemma RowStep<V>(e: seq<V>, z2: seq<V>, sim: (V, V) -> real, row: seq<Matrix>, k: nat, lo: nat, hi: nat)
    requires 2 <= k <= |row| && SameHeight(row) && lo <= hi <= |z2|
    requires SameHeight(row[..k - 1]) && HConcat(row[..k - 1]) == SimilarityBlock(e, z2[..lo], sim)
    requires row[k - 1] == SimilarityBlock(e, z2[lo..hi], sim)
    ensures SameHeight(row[..k])
    ensures HConcat(row[..k]) == SimilarityBlock(e, z2[..hi], sim)
  {
    HConcatStep(row, k);
    JoinStep(e, z2, sim, lo, hi);
  }

  /** The first block of a block row covers the columns of column block 0. */
  lemma RowFirst<V>(e: seq<V>, z2: seq<V>, b: nat, sim: (V, V) -> real)
    requires b > 0
    ensures BlockEnd(0, b, |z2|) <= |z2|
    ensures HConcat(BlockRow(e, z2, b, sim)[..1]) == SimilarityBlock(e, z2[..BlockEnd(0, b, |z2|)], sim)
  {
    var row := BlockRow(e, z2, b, sim);
    BlockRowAt(e, z2, b, sim, 0);
    HConcatFirst(row);
    assert z2[BlockStart(0, b, |z2|)..BlockEnd(0, b, |z2|)] == z2[..BlockEnd(0, b, |z2|)];
  }

  /** Joining the first `k` blocks of a block row gives the similarity of `e`
      with the prefix of `z2` those blocks cover. */
  lemma {:induction false} RowPrefix<V>(e: seq<V>, z2: seq<V>, b: nat, sim: (V, V) -> real, k: nat)
    requires b > 0 && 1 <= k <= BlockCount(|z2|, b)
    ensures BlockEnd(k - 1, b, |z2|) <= |z2|
    ensures HConcat(BlockRow(e, z2, b, sim)[..k]) == SimilarityBlock(e, z2[..BlockEnd(k - 1, b, |z2|)], sim)
  {
    if k == 1 {
      RowFirst(e, z2, b, sim);
    } else {
      RowPrefix(e, z2, b, sim, k - 1);
      RowPrefixStep(e, z2, b, sim, k);
    }
  }

  /** Joining block `k - 1` onto the first `k - 1` blocks of a block row. */
  lemma RowPrefixStep<V>(e: seq<V>, z2: seq<V>, b: nat, sim: (V, V) -> real, k: nat)
    requires b > 0 && 2 <= k <= BlockCount(|z2|, b)
    requires BlockEnd(k - 2, b, |z2|) <= |z2|
    requires HConcat(BlockRow(e, z2, b, sim)[..k - 1]) == SimilarityBlock(e, z2[..BlockEnd(k - 2, b, |z2|)], sim)
    ensures BlockEnd(k - 1, b, |z2|) <= |z2|
    ensures HConcat(BlockRow(e, z2, b, sim)[..k]) == SimilarityBlock(e, z2[..BlockEnd(k - 1, b, |z2|)], sim)
  {
    var row := BlockRow(e, z2, b, sim);
    BlockRowAt(e, z2, b, sim, k - 1);
    BlockStep(|z2|, b, k - 2);
    RowStep(e, z2, sim, row, k, BlockStart(k - 1, b, |z2|), BlockEnd(k - 1, b, |z2|));
  }

  /** A whole block row, joined, is the similarity of its rows with all of `z2`. */
  lemma RowIsDirect<V>(e: seq<V>, z2: seq<V>, b: nat, sim: (V, V) -> real)
    requires b > 0
    ensures HConcat(BlockRow(e, z2, b, sim)) == SimilarityBlock(e, z2, sim)
  {
    var row := BlockRow(e, z2, b, sim);
    RowPrefix(e, z2, b, sim, |row|);
    assert BlockEnd(|row| - 1, b, |z2|) == |z2| by {
      BlockStep(|z2|, b, |row| - 1);
    }
    assert row[..|row|] == row;
    assert z2[..|z2|] == z2;
  }

  /** Assembling the first `k` block rows gives the similarity of the prefix
      of `z1` they cover with all of `z2`. */
  lemma {:induction false} GridPrefix<V>(z1: seq<V>, z2: seq<V>, b: nat, sim: (V, V) -> real, k: nat)
    requires b > 0 && k <= BlockCount(|z1|, b)
    ensures BlockStart(k, b, |z1|) <= |z1|
    ensures NpBlock(Grid(z1, z2, b, sim)[..k]) == SimilarityBlock(z1[..BlockStart(k, b, |z1|)], z2, sim)
  {
    var grid := Grid(z1, z2, b, sim);
    if k == 0 {
      assert grid[..0] == [];
      assert z1[..0] == [];
    } else {
      GridPrefix(z1, z2, b, sim, k - 1);
      BlockSlice(z1, k - 1, b);
      BlockStep(|z1|, b, k - 1);
      var lo := BlockStart(k - 1, b, |z1|);
      var hi := BlockEnd(k - 1, b, |z1|);
      RowIsDirect(z1[lo..hi], z2, b, sim);
      NpBlockStep(grid, k);
      StackStep(z1, z2, sim, lo, hi);
    }
  }

  /** Blocked assembly reproduces the direct similarity matrix. */
  lemma BlockedIsDirect<V>(z1: seq<V>, z2: seq<V>, b: nat, sim: (V, V) -> real)
    requires b > 0
    ensures NpBlock(Grid(z1, z2, b, sim)) == SimilarityBlock(z1, z2, sim)
  {
    var grid := Grid(z1, z2, b, sim);
    GridPrefix(z1, z2, b, sim, |grid|);
    assert BlockStart(|grid|, b, |z1|) == |z1| by {
      BlockStep(|z1|, b, |grid| - 1);
    }
    assert grid[..|grid|] == grid;
    assert z1[..|z1|] == z1;
  }

  /** The block size only bounds the working set: any two block sizes
      assemble the same matrix. */
  lemma BlockSizeIrrelevant<V>(z1: seq<V>, z2: seq<V>, b1: nat, b2: nat, sim: (V, V) -> real)
    requires b1 > 0 && b2 > 0
    ensures NpBlock(Grid(z1, z2, b1, sim)) == NpBlock(Grid(z1, z2, b2, sim))
  {
    BlockedIsDirect(z1, z2, b1, sim);
    BlockedIsDirect(z1, z2, b2, sim);
  }

  /** `pairwise_distance`: the similarity matrix of `z1` against `z2`, computed
      block by block with block size `blockSize`. */
  method PairwiseDistance<V>(z1: seq<V>, z2: seq<V>, sim: (V, V) -> real, blockSize: nat) returns (m: Matrix)
    requires blockSize > 0
    ensures |m| == |z1|
    ensures forall r :: 0 <= r < |z1| ==> |m[r]| == |z2|
    ensures forall r, c :: 0 <= r < |z1| && 0 <= c < |z2| ==> m[r][c] == sim(z1[r], z2[c])
  {
    QuotIsDiv(|z1|, blockSize);
    QuotIsDiv(|z2|, blockSize);
    var similarityMatrices: seq<seq<Matrix>> := [];
    ghost var grid := Grid(z1, z2, blockSize, sim);
    var i := 0;
    while i < |z1| / blockSize + 1
      invariant i <= |z1| / blockSize + 1
      invariant similarityMatrices == grid[..i]
    {
      var row: seq<Matrix> := [];
      var e := Block(z1, i, blockSize);
      ghost var blocks := BlockRow(e, z2, blockSize, sim);
      var j := 0;
      while j < |z2| / blockSize + 1
        invariant j <= |z2| / blockSize + 1
        invariant row == blocks[..j]
      {
        var et := Block(z2, j, blockSize);
        assert blocks[..j + 1] == blocks[..j] + [SimilarityBlock(e, et, sim)];
        row := row + [SimilarityBlock(e, et, sim)];
        j := j + 1;
      }
      assert row == blocks;
      assert grid[..i + 1] == grid[..i] + [row];
      similarityMatrices := similarityMatrices + [row];
      i := i + 1;
    }
    assert similarityMatrices == grid;
    BlockedIsDirect(z1, z2, blockSize, sim);
    m := NpBlock(similarityMatrices);
    SimilarityEntries(z1, z2, sim);
  }
}
