/** The subset datasets: an index-addressed view of an original dataset
    through a resolved list of indices. The list is either supplied by the
    caller (CustomSubsetDataset) or selected class by class with the coverage
    objective (SASSubsetDataset).

    The ranking oracle `lazy_greedy(F, range(n), n)` is a parameter: a
    function of the objective's matrix and threshold at the time it is called.
 */
module SubsetDatasets {
  import opened Coverage
  import opened Objective
  import opened Selection
  import opened Pairwise
  import opened Common

  /** A latent-class partition as an insertion-ordered dictionary: one
      (latent class, member indices) pair per class, in key order. */
  type Partition = seq<(int, seq<int>)>

  /** Dictionary keys are unique. */
  predicate DistinctKeys(partition: Partition)
  {
    forall a, b :: 0 <= a < b < |partition| ==> partition[a].0 != partition[b].0
  }

  /** The ranking oracle: local positions of the matrix, best first. */
  type Ranker = (Matrix, real) -> seq<nat>

  /** Every class has a distance matrix; the oracle's ranking of it names
      rows of that matrix (`lazy_greedy` ranks `range(n)`), and positions of
      the class's member list (otherwise the source's mapping raises an index
      error). */
  predicate RankableBy(partition: Partition, mats: map<int, Matrix>, threshold: real, lazyGreedy: Ranker)
  {
    forall q :: 0 <= q < |partition| ==>
      && partition[q].0 in mats
      && RankingFits(lazyGreedy(mats[partition[q].0], threshold), |mats[partition[q].0]|)
      && RankingFits(lazyGreedy(mats[partition[q].0], threshold), |partition[q].1|)
  }

  /** `class_wise_idx` after the first loop: each class with the oracle's
      ranking of its matrix, mapped to global indices. */
  function ClassRankings(partition: Partition, mats: map<int, Matrix>, threshold: real, lazyGreedy: Ranker): (cw: ClassWise)
    requires RankableBy(partition, mats, threshold, lazyGreedy)
    ensures |cw| == |partition|
    ensures forall q :: 0 <= q < |cw| ==>
      && cw[q].0 == partition[q].0
      && |cw[q].1| == |lazyGreedy(mats[partition[q].0], threshold)|
      && forall j :: 0 <= j < |cw[q].1| ==>
           cw[q].1[j] == partition[q].1[lazyGreedy(mats[partition[q].0], threshold)[j]]
  {
    seq(|partition|, q requires 0 <= q < |partition| =>
      (partition[q].0, ToGlobal(lazyGreedy(mats[partition[q].0], threshold), partition[q].1)))
  }

  /** The contents of the caller's distance arrays. */
  ghost function Snapshots(dist: map<int, array2<real>>): map<int, Matrix>
    reads dist.Values
  {
    map c | c in dist :: Snapshot(dist[c])
  }

  /** The `add` calls that `lazy_greedy` makes on the objective, one per
      accepted element, in the order of its ranking: each zeroes that row.
      Afterwards the gain of every element left out of the ranking is its
      significant row sum in the matrix the oracle was given. */
  method Commits(f: SubsetSelectionObjective, ranking: seq<nat>)
    requires RankingFits(ranking, f.distance.Length0)
    modifies f.distance
    ensures f.Matrix() == CommitAll(old(f.Matrix()), ranking)
    ensures forall i :: 0 <= i < f.distance.Length0 && i < f.distance.Length1 && i !in ranking ==>
      f.Inc(ranking, i) == Sum(Significant(old(f.Matrix())[i], f.threshold))
  {
    ghost var m0 := f.Matrix();
    var k := 0;
    while k < |ranking|
      invariant k <= |ranking|
      invariant f.Matrix() == CommitAll(m0, ranking[..k])
    {
      f.Add(ranking[k]);
      CommitAllSnoc(m0, ranking[..k], ranking[k]);
      assert ranking[..k + 1] == ranking[..k] + [ranking[k]];
      k := k + 1;
    }
    assert ranking[..k] == ranking;
    forall i | 0 <= i < f.distance.Length0 && i < f.distance.Length1 && i !in ranking
      ensures f.Inc(ranking, i) == Sum(Significant(m0[i], f.threshold))
    {
      GainAfterCommits(m0, f.threshold, ranking, i);
    }
  }

  /** One iteration of the first loop of `SASSubsetDataset.__init__`: build
      the objective on a copy of the class's matrix, rank with the oracle
      (which then commits its picks on that copy) and map the ranking to
      global indices. The caller's array is not in the frame. */
  method RankClass(members: seq<int>, distance: array2<real>, threshold: real, lazyGreedy: Ranker)
    returns (ranked: seq<int>)
    requires RankingFits(lazyGreedy(Snapshot(distance), threshold), distance.Length0)
    requires RankingFits(lazyGreedy(Snapshot(distance), threshold), |members|)
    ensures ranked == ToGlobal(lazyGreedy(Snapshot(distance), threshold), members)
  {
    var copy := CopyMatrix(distance);
    var f := new SubsetSelectionObjective(copy, threshold);
    var ranking := lazyGreedy(f.Matrix(), f.threshold);
    Commits(f, ranking);
    ranked := ToGlobal(ranking, members);
  }

  /** The first loop of `SASSubsetDataset.__init__`: every class, in key
      order, with its ranking in global indices. */
  method RankClasses(partition: Partition, dist: map<int, array2<real>>, threshold: real, lazyGreedy: Ranker)
    returns (classWise: ClassWise)
    requires RankableBy(partition, Snapshots(dist), threshold, lazyGreedy)
    ensures classWise == ClassRankings(partition, Snapshots(dist), threshold, lazyGreedy)
  {
    ghost var mats := Snapshots(dist);
    classWise := [];
    var q := 0;
    while q < |partition|
      invariant q <= |partition|
      invariant Snapshots(dist) == mats
      invariant classWise == ClassRankings(partition, mats, threshold, lazyGreedy)[..q]
    {
      var latentClass := partition[q].0;
      assert Snapshot(dist[latentClass]) == mats[latentClass];
      var ranked := RankClass(partition[q].1, dist[latentClass], threshold, lazyGreedy);
      classWise := classWise + [(latentClass, ranked)];
      q := q + 1;
    }
  }

  /** The number of entries the selection keeps, from the matrix dimensions:
      Σ over the classes of `int(f * n_c)`. */
  function MatrixQuota(partition: Partition, mats: map<int, Matrix>, num: nat, den: nat): nat
    requires den > 0
    requires forall q :: 0 <= q < |partition| ==> partition[q].0 in mats
  {
    if partition == [] then 0
    else
      MatrixQuota(partition[..|partition| - 1], mats, num, den)
      + ScaledFloor(num, den, |mats[partition[|partition| - 1].0]|)
  }

  /** The oracle returns one entry per row of every class's matrix. */
  predicate FullRankings(partition: Partition, mats: map<int, Matrix>, threshold: real, lazyGreedy: Ranker)
    requires forall q :: 0 <= q < |partition| ==> partition[q].0 in mats
  {
    forall q :: 0 <= q < |partition| ==>
      |lazyGreedy(mats[partition[q].0], threshold)| == |mats[partition[q].0]|
  }

  /** The rankings of the first `k` classes are the first `k` rankings. */
  lemma ClassRankingsPrefix(partition: Partition, mats: map<int, Matrix>, threshold: real,
                            lazyGreedy: Ranker, k: nat)
    requires RankableBy(partition, mats, threshold, lazyGreedy) && k <= |partition|
    ensures RankableBy(partition[..k], mats, threshold, lazyGreedy)
    ensures ClassRankings(partition[..k], mats, threshold, lazyGreedy)
         == ClassRankings(partition, mats, threshold, lazyGreedy)[..k]
  {
    assert forall q :: 0 <= q < k ==> partition[..k][q] == partition[q];
  }

  /** With an oracle that ranks the whole class, the quota computed from the
      ranking lengths is the quota computed from the matrix sizes. */
  lemma {:induction false} QuotaFromMatrices(partition: Partition, mats: map<int, Matrix>, threshold: real,
                                             lazyGreedy: Ranker, num: nat, den: nat)
    requires den > 0
    requires RankableBy(partition, mats, threshold, lazyGreedy)
    requires FullRankings(partition, mats, threshold, lazyGreedy)
    ensures TotalQuota(ClassRankings(partition, mats, threshold, lazyGreedy), num, den)
         == MatrixQuota(partition, mats, num, den)
  {
    if partition != [] {
      var n := |partition|;
      var cw := ClassRankings(partition, mats, threshold, lazyGreedy);
      ClassRankingsPrefix(partition, mats, threshold, lazyGreedy, n - 1);
      var init := partition[..n - 1];
      assert FullRankings(init, mats, threshold, lazyGreedy) by {
        assert forall q :: 0 <= q < |init| ==> init[q] == partition[q];
      }
      QuotaFromMatrices(init, mats, threshold, lazyGreedy, num, den);
      assert |cw[n - 1].1| == |mats[partition[n - 1].0]|;
    }
  }

  /** With an oracle that ranks the whole class and a fraction at most 1, the
      selection keeps exactly Σ_c int(f * n_c) indices, `n_c` being the size
      of class `c`'s matrix. */
  lemma SelectionLength(partition: Partition, mats: map<int, Matrix>, threshold: real,
                        lazyGreedy: Ranker, num: nat, den: nat)
    requires 0 < den && num <= den
    requires RankableBy(partition, mats, threshold, lazyGreedy)
    requires FullRankings(partition, mats, threshold, lazyGreedy)
    ensures |SubsetIndices(ClassRankings(partition, mats, threshold, lazyGreedy), num, den)|
         == MatrixQuota(partition, mats, num, den)
  {
    var cw := ClassRankings(partition, mats, threshold, lazyGreedy);
    SubsetIndicesLength(cw, num, den);
    QuotaFromMatrices(partition, mats, threshold, lazyGreedy, num, den);
  }

  /** Member lists without duplicates, no index in two classes, and an oracle
      that ranks no position twice give a final list without duplicates. */
  lemma SelectionDistinct(partition: Partition, mats: map<int, Matrix>, threshold: real,
                          lazyGreedy: Ranker, num: nat, den: nat)
    requires den > 0
    requires RankableBy(partition, mats, threshold, lazyGreedy)
    requires forall q :: 0 <= q < |partition| ==> Distinct(partition[q].1)
    requires forall p, q :: 0 <= p < q < |partition| ==> Disjoint(partition[p].1, partition[q].1)
    requires forall q :: 0 <= q < |partition| ==> Distinct(lazyGreedy(mats[partition[q].0], threshold))
    ensures Distinct(SubsetIndices(ClassRankings(partition, mats, threshold, lazyGreedy), num, den))
  {
    var cw := ClassRankings(partition, mats, threshold, lazyGreedy);
    forall q | 0 <= q < |cw|
      ensures Distinct(cw[q].1)
      ensures forall x :: x in cw[q].1 ==> x in partition[q].1
    {
      ToGlobalDistinct(lazyGreedy(mats[partition[q].0], threshold), partition[q].1);
    }
    assert forall p, q :: 0 <= p < q < |cw| ==> Disjoint(cw[p].1, cw[q].1);
    SubsetIndicesDistinct(cw, num, den);
  }

  /** Entry `Offset(q) + j` of the selection is the member that the oracle
      ranked `j`-th in class `q`. */
  lemma SelectionAt(partition: Partition, mats: map<int, Matrix>, threshold: real,
                    lazyGreedy: Ranker, num: nat, den: nat, q: nat, j: nat)
    requires den > 0 && RankableBy(partition, mats, threshold, lazyGreedy) && q < |partition|
    requires j < |Contribution(ClassRankings(partition, mats, threshold, lazyGreedy)[q].1, num, den)|
    ensures j < |lazyGreedy(mats[partition[q].0], threshold)|
    ensures Offset(ClassRankings(partition, mats, threshold, lazyGreedy), num, den, q) + j
          < |SubsetIndices(ClassRankings(partition, mats, threshold, lazyGreedy), num, den)|
    ensures SubsetIndices(ClassRankings(partition, mats, threshold, lazyGreedy), num, den)
              [Offset(ClassRankings(partition, mats, threshold, lazyGreedy), num, den, q) + j]
         == partition[q].1[lazyGreedy(mats[partition[q].0], threshold)[j]]
  {
    var cw := ClassRankings(partition, mats, threshold, lazyGreedy);
    var ranking := lazyGreedy(mats[partition[q].0], threshold);
    assert cw[q].1 == ToGlobal(ranking, partition[q].1);
    SubsetIndicesAt(cw, num, den, q, j);
  }

  /** `Z[idx]`: the encodings of the listed items. */
  function Gather<V>(z: seq<V>, idx: seq<int>): (r: seq<V>)
    requires forall k :: 0 <= k < |idx| ==> 0 <= idx[k] < |z|
    ensures |r| == |idx|
    ensures forall k :: 0 <= k < |r| ==> r[k] == z[idx[k]]
    ensures forall x :: x in r ==> x in z
  {
    seq(|idx|, k requires 0 <= k < |idx| => z[idx[k]])
  }

  /** Every member of every class is an index of `z`. */
  predicate MembersIn(partition: Partition, n: nat)
  {
    forall q, k :: 0 <= q < |partition| && 0 <= k < |partition[q].1| ==> 0 <= partition[q].1[k] < n
  }

  /** The loop of `approximate_augmentation_distance` over given encodings
      `z`: each class's matrix is the blocked similarity of its members'
      encodings with themselves, with the default block size 1024. */
  method ApproximateAugmentationDistance<V>(z: seq<V>, partition: Partition, sim: (V, V) -> real)
    returns (dist: map<int, Matrix>)
    requires DistinctKeys(partition) && MembersIn(partition, |z|)
    ensures dist.Keys == set q | 0 <= q < |partition| :: partition[q].0
    ensures forall q :: 0 <= q < |partition| ==>
      var zq := Gather(z, partition[q].1);
      dist[partition[q].0] == SimilarityBlock(zq, zq, sim)
  {
    dist := map[];
    var q := 0;
    while q < |partition|
      invariant q <= |partition|
      invariant dist.Keys == set p | 0 <= p < q :: partition[p].0
      invariant forall p :: 0 <= p < q ==>
        var zp := Gather(z, partition[p].1);
        dist[partition[p].0] == SimilarityBlock(zp, zp, sim)
    {
      var zPartition := Gather(z, partition[q].1);
      var pairwiseDistance := PairwiseDistance(zPartition, zPartition, sim, 1024);
      assert pairwiseDistance == SimilarityBlock(zPartition, zPartition, sim) by {
        var d := SimilarityBlock(zPartition, zPartition, sim);
        assert forall r :: 0 <= r < |d| ==> pairwiseDistance[r] == d[r];
      }
      dist := dist[partition[q].0 := pairwiseDistance];
      q := q + 1;
    }
  }

  /** Computed matrices have one row per member, so an oracle that ranks only
      rows of its matrix always fits the member lists. */
  lemma ComputedDistancesRankable<V>(z: seq<V>, partition: Partition, sim: (V, V) -> real,
                                     dist: map<int, Matrix>, threshold: real, lazyGreedy: Ranker)
    requires MembersIn(partition, |z|)
    requires forall q :: 0 <= q < |partition| ==> partition[q].0 in dist
    requires forall q :: 0 <= q < |partition| ==>
      var zq := Gather(z, partition[q].1);
      dist[partition[q].0] == SimilarityBlock(zq, zq, sim)
    requires forall m: Matrix :: RankingFits(lazyGreedy(m, threshold), |m|)
    ensures RankableBy(partition, dist, threshold, lazyGreedy)
  {
    forall q | 0 <= q < |partition|
      ensures RankingFits(lazyGreedy(dist[partition[q].0], threshold), |partition[q].1|)
    {
      var m := dist[partition[q].0];
      assert |m| == |partition[q].1|;
    }
  }

  /** A subset dataset: `dataset` seen through `subsetIndices`. The fraction
      `subset_fraction` is `fractionNum / fractionDen`. */
  class SubsetDataset<T> {
    var dataset: seq<T>
    var fractionNum: nat
    var fractionDen: nat
    var lenDataset: nat
    var subsetSize: nat
    var subsetIndices: seq<int>

    /** `BaseSubsetDataset.__init__`: the nominal size is `int(len * f)`, no
        index list yet. */
    method InitBase(dataset: seq<T>, num: nat, den: nat)
      requires den > 0
      modifies this
      ensures this.dataset == dataset && fractionNum == num && fractionDen == den
      ensures lenDataset == |dataset| && subsetSize == ScaledFloor(num, den, |dataset|)
      ensures subsetIndices == []
    {
      this.dataset := dataset;
      fractionNum, fractionDen := num, den;
      lenDataset := |dataset|;
      subsetSize := ScaledFloor(num, den, |dataset|);
      subsetIndices := [];
    }

    /** `CustomSubsetDataset`: the caller's index list; size and fraction are
        recomputed from it (the fraction divides by the dataset length). */
    constructor Custom(dataset: seq<T>, subsetIndices: seq<int>)
      requires |dataset| > 0
      ensures this.dataset == dataset && lenDataset == |dataset|
      ensures this.subsetIndices == subsetIndices
      ensures subsetSize == |subsetIndices| && Len() == subsetSize
      ensures fractionNum == |subsetIndices| && fractionDen == |dataset|
    {
      new;
      InitBase(dataset, 1, 1);
      subsetSize := |subsetIndices|;
      fractionNum, fractionDen := subsetSize, |dataset|;
      this.subsetIndices := subsetIndices;
    }

    /** `SASSubsetDataset` with precomputed distance arrays: rank every class
        on a private copy of its matrix, then append each class's first
        `int(f * l)` global indices, in key order. The caller's arrays are
        left as they were. */
    constructor SAS(dataset: seq<T>, num: nat, den: nat, partition: Partition,
                    dist: map<int, array2<real>>, threshold: real, lazyGreedy: Ranker)
      requires den > 0 && DistinctKeys(partition)
      requires RankableBy(partition, Snapshots(dist), threshold, lazyGreedy)
      ensures this.dataset == dataset && lenDataset == |dataset|
      ensures fractionNum == num && fractionDen == den
      ensures subsetSize == ScaledFloor(num, den, |dataset|)
      ensures subsetIndices == SubsetIndices(ClassRankings(partition, Snapshots(dist), threshold, lazyGreedy), num, den)
      ensures Snapshots(dist) == old(Snapshots(dist))
    {
      new;
      ghost var mats := Snapshots(dist);
      InitBase(dataset, num, den);
      assert Snapshots(dist) == mats;
      var classWise := RankClasses(partition, dist, threshold, lazyGreedy);
      assert Snapshots(dist) == mats;
      SelectFrom(classWise);
    }

    /** The second loop of `SASSubsetDataset.__init__`: start a new index list
        and extend it, class by class, with the first `int(f * l)` entries of
        each ranking. */
    method SelectFrom(classWise: ClassWise)
      requires fractionDen > 0
      modifies this`subsetIndices
      ensures subsetIndices == SubsetIndices(classWise, fractionNum, fractionDen)
    {
      subsetIndices := [];
      var q := 0;
      while q < |classWise|
        invariant q <= |classWise|
        invariant subsetIndices == SubsetIndices(classWise[..q], fractionNum, fractionDen)
      {
        var l := |classWise[q].1|;
        subsetIndices := subsetIndices + Slice(classWise[q].1, 0, ScaledFloor(fractionNum, fractionDen, l));
        assert classWise[..q + 1][..q] == classWise[..q];
        q := q + 1;
      }
      assert classWise[..q] == classWise;
    }

    /** `__len__`: the length of the resolved index list. */
    function Len(): (n: nat)
      reads this
      ensures n == |subsetIndices|
    {
      |subsetIndices|
    }

    /** `__getitem__`: entry `k` of the view is the original item at index
        `subsetIndices[k]`. */
    function GetItem(k: nat): (item: T)
      reads this
      requires k < |subsetIndices| && 0 <= subsetIndices[k] < |dataset|
      ensures item == dataset[subsetIndices[k]]
    {
      dataset[subsetIndices[k]]
    }

    /** In a selected view, entry `Offset(q) + j` is the original item at the
        member that the oracle ranked `j`-th in class `q`. */
    lemma SelectedItem(partition: Partition, mats: map<int, Matrix>, threshold: real,
                       lazyGreedy: Ranker, q: nat, j: nat)
      requires fractionDen > 0
      requires RankableBy(partition, mats, threshold, lazyGreedy)
      requires subsetIndices == SubsetIndices(ClassRankings(partition, mats, threshold, lazyGreedy), fractionNum, fractionDen)
      requires q < |partition| && MembersIn(partition, |dataset|)
      requires j < |Contribution(ClassRankings(partition, mats, threshold, lazyGreedy)[q].1, fractionNum, fractionDen)|
      ensures var k := Offset(ClassRankings(partition, mats, threshold, lazyGreedy), fractionNum, fractionDen, q) + j;
        && k < Len()
        && 0 <= subsetIndices[k] < |dataset|
        && GetItem(k) == dataset[partition[q].1[lazyGreedy(mats[partition[q].0], threshold)[j]]]
    {
      SelectionAt(partition, mats, threshold, lazyGreedy, fractionNum, fractionDen, q, j);
      var ranking := lazyGreedy(mats[partition[q].0], threshold);
      assert j < |ranking| && ranking[j] < |partition[q].1|;
    }

    /** A selected view over class rankings that together hold at most
        `lenDataset` entries is never longer than the nominal `subsetSize`. */
    lemma SelectedAtMostSubsetSize(classWise: ClassWise)
      requires fractionDen > 0 && fractionNum <= fractionDen
      requires subsetIndices == SubsetIndices(classWise, fractionNum, fractionDen)
      requires subsetSize == ScaledFloor(fractionNum, fractionDen, lenDataset)
      requires TotalRanked(classWise) <= lenDataset
      ensures Len() <= subsetSize
    {
      SubsetIndicesLength(classWise, fractionNum, fractionDen);
      QuotaAtMostWhole(classWise, fractionNum, fractionDen);
      ScaledFloorGrows(fractionNum, fractionDen, TotalRanked(classWise), lenDataset);
    }
  }
}
