/** What the per-class selection contributes to the final index list.

    Each latent class has a ranking of global item indices (the oracle's
    ranking of local positions, mapped through the class's member list). The
    final list is, class after class in key order, the first
    `int(subset_fraction * l)` entries of each ranking, `l` being the
    ranking's length. `subset_fraction` is the non-negative fraction `num/den`.
 */
module Selection {
  import opened Common

  /** `int(x * num / den)`: Python's `int` truncates, which for the
      non-negative values here is the floor. */
  function ScaledFloor(num: nat, den: nat, x: nat): (r: nat)
    requires den > 0
    ensures r * den <= num * x < (r + 1) * den
    ensures num <= den ==> r <= x
  {
    var p := num * x;
    var q := p / den;
    FloorBounds(p, den, q);
    FloorAtMost(num, den, x, q);
    q
  }

  lemma FloorBounds(p: nat, d: nat, q: nat)
    requires d > 0 && q == p / d
    ensures q * d <= p < (q + 1) * d
  {
    assert q * d + p % d == p;
    assert (q + 1) * d == q * d + d;
  }

  /** For a fraction at most 1, a floor `q` of `num * x / den` is at most `x`. */
  lemma FloorAtMost(num: nat, den: nat, x: nat, q: nat)
    requires 0 < den && q * den <= num * x
    ensures num <= den ==> q <= x
  {
    if num <= den && q > x {
      ProductMonotone(num, den, x);
      ProductMonotone(x + 1, q, den);
      assert false;
    }
  }

  /** Every entry of `ranking` is a position in a list of length `n`. */
  predicate RankingFits(ranking: seq<nat>, n: nat)
  {
    forall j :: 0 <= j < |ranking| ==> ranking[j] < n
  }

  /** `[members[i] for i in ranking]`: local positions to global indices. */
  function ToGlobal(ranking: seq<nat>, members: seq<int>): (r: seq<int>)
    requires RankingFits(ranking, |members|)
    ensures |r| == |ranking|
    ensures forall j :: 0 <= j < |r| ==> r[j] == members[ranking[j]]
  {
    if ranking == [] then []
    else [members[ranking[0]]] + ToGlobal(ranking[1..], members)
  }

  /** No entry occurs twice. */
  predicate Distinct<T(==)>(s: seq<T>)
  {
    forall a, b :: 0 <= a < b < |s| ==> s[a] != s[b]
  }

  predicate Disjoint<T(==)>(s: seq<T>, t: seq<T>)
  {
    forall x :: x in s ==> x !in t
  }

  /** A duplicate-free ranking over a duplicate-free member list maps to a
      duplicate-free list of members. */
  lemma ToGlobalDistinct(ranking: seq<nat>, members: seq<int>)
    requires RankingFits(ranking, |members|)
    requires Distinct(ranking) && Distinct(members)
    ensures Distinct(ToGlobal(ranking, members))
    ensures forall x :: x in ToGlobal(ranking, members) ==> x in members
  {
    var r := ToGlobal(ranking, members);
    forall x | x in r
      ensures x in members
    {
      var j :| 0 <= j < |r| && r[j] == x;
      assert members[ranking[j]] == x;
    }
  }

  /** What one class contributes: the first `int(f * l)` entries of its ranking. */
  function Contribution(ranked: seq<int>, num: nat, den: nat): (r: seq<int>)
    requires den > 0
    ensures r <= ranked
    ensures |r| == Min(ScaledFloor(num, den, |ranked|), |ranked|)
    ensures num <= den ==> |r| == ScaledFloor(num, den, |ranked|)
  {
    Slice(ranked, 0, ScaledFloor(num, den, |ranked|))
  }

  /** The class-wise rankings, one (latent class, global ranking) pair per
      class, in the order in which the classes were ranked. */
  type ClassWise = seq<(int, seq<int>)>

  /** The final index list: every class's contribution, in order. */
  function SubsetIndices(classWise: ClassWise, num: nat, den: nat): (r: seq<int>)
    requires den > 0
    ensures forall x :: x in r ==> exists q :: 0 <= q < |classWise| && x in classWise[q].1
  {
    if classWise == [] then []
    else
      var init := classWise[..|classWise| - 1];
      var last := classWise[|classWise| - 1];
      var r := SubsetIndices(init, num, den) + Contribution(last.1, num, den);
      assert forall q :: 0 <= q < |init| ==> init[q] == classWise[q];
      r
  }

  /** Σ over the classes of `int(f * l)`. */
  function TotalQuota(classWise: ClassWise, num: nat, den: nat): nat
    requires den > 0
  {
    if classWise == [] then 0
    else
      TotalQuota(classWise[..|classWise| - 1], num, den)
      + ScaledFloor(num, den, |classWise[|classWise| - 1].1|)
  }

  /** Σ over the classes of the ranking lengths. */
  function TotalRanked(classWise: ClassWise): nat
  {
    if classWise == [] then 0
    else TotalRanked(classWise[..|classWise| - 1]) + |classWise[|classWise| - 1].1|
  }

  /** For a fraction at most 1, the final list has Σ_c int(f * l_c) entries. */
  lemma {:induction false} SubsetIndicesLength(classWise: ClassWise, num: nat, den: nat)
    requires 0 < den && num <= den
    ensures |SubsetIndices(classWise, num, den)| == TotalQuota(classWise, num, den)
  {
    if classWise != [] {
      SubsetIndicesLength(classWise[..|classWise| - 1], num, den);
    }
  }

  /** The final list for the first `k` classes is a prefix of the final list. */
  lemma {:induction false} SubsetIndicesPrefix(classWise: ClassWise, num: nat, den: nat, k: nat)
    requires den > 0 && k <= |classWise|
    ensures SubsetIndices(classWise[..k], num, den) <= SubsetIndices(classWise, num, den)
    decreases |classWise| - k
  {
    if k < |classWise| {
      var n := |classWise|;
      assert classWise[..n][..n - 1] == classWise[..n - 1];
      assert classWise[..n - 1][..k] == classWise[..k];
      SubsetIndicesPrefix(classWise[..n - 1], num, den, k);
    } else {
      assert classWise[..k] == classWise;
    }
  }

  /** Where class `q`'s contribution starts in the final list. */
  function Offset(classWise: ClassWise, num: nat, den: nat, q: nat): nat
    requires den > 0 && q <= |classWise|
  {
    |SubsetIndices(classWise[..q], num, den)|
  }

  /** Entry `j` of class `q`'s contribution sits at `Offset(q) + j` of the
      final list. */
  lemma SubsetIndicesAt(classWise: ClassWise, num: nat, den: nat, q: nat, j: nat)
    requires den > 0 && q < |classWise|
    requires j < |Contribution(classWise[q].1, num, den)|
    ensures Offset(classWise, num, den, q) + j < |SubsetIndices(classWise, num, den)|
    ensures SubsetIndices(classWise, num, den)[Offset(classWise, num, den, q) + j] == classWise[q].1[j]
  {
    var pre := classWise[..q + 1];
    assert pre[..q] == classWise[..q];
    assert pre[q] == classWise[q];
    SubsetIndicesPrefix(classWise, num, den, q + 1);
  }

  /** A smaller fraction never keeps more of a ranking. */
  lemma ScaledFloorMonotone(num1: nat, den1: nat, num2: nat, den2: nat, x: nat)
    requires den1 > 0 && den2 > 0
    requires num1 * den2 <= num2 * den1
    ensures ScaledFloor(num1, den1, x) <= ScaledFloor(num2, den2, x)
  {
    var r1 := ScaledFloor(num1, den1, x);
    var r2 := ScaledFloor(num2, den2, x);
    var d := den1 * den2;
    assert r1 * d <= (num1 * den2) * x by {
      ProductMonotone(r1 * den1, num1 * x, den2);
      Associate(r1, den1, den2);
      SwapLast(num1, x, den2);
    }
    assert (num1 * den2) * x <= (num2 * den1) * x by {
      ProductMonotone(num1 * den2, num2 * den1, x);
    }
    assert (num2 * den1) * x < (r2 + 1) * d by {
      MulStrictMonotone(num2 * x, (r2 + 1) * den2, den1);
      SwapLast(num2, x, den1);
      Associate(r2 + 1, den2, den1);
      assert den2 * den1 == d;
    }
    if r1 > r2 {
      ProductMonotone(r2 + 1, r1, d);
      assert false;
    }
  }

  lemma Associate(a: nat, b: nat, c: nat)
    ensures a * b * c == a * (b * c)
  {
  }

  lemma SwapLast(a: nat, b: nat, c: nat)
    ensures a * b * c == a * c * b
  {
  }

  lemma MulStrictMonotone(a: nat, b: nat, x: nat)
    requires a < b && x > 0
    ensures a * x < b * x
  {
  }

  /** Nesting: with `num1/den1 <= num2/den2`, each class contributes a prefix
      of what it contributes at the larger fraction. */
  lemma ContributionNested(ranked: seq<int>, num1: nat, den1: nat, num2: nat, den2: nat)
    requires den1 > 0 && den2 > 0
    requires num1 * den2 <= num2 * den1
    ensures Contribution(ranked, num1, den1) <= Contribution(ranked, num2, den2)
  {
    ScaledFloorMonotone(num1, den1, num2, den2, |ranked|);
  }

  /** Nesting of the final lists: every index kept at the smaller fraction is
      kept at the larger one, as often. */
  lemma {:induction false} SubsetIndicesNested(classWise: ClassWise, num1: nat, den1: nat, num2: nat, den2: nat)
    requires den1 > 0 && den2 > 0
    requires num1 * den2 <= num2 * den1
    ensures multiset(SubsetIndices(classWise, num1, den1)) <= multiset(SubsetIndices(classWise, num2, den2))
  {
    if classWise != [] {
      var last := classWise[|classWise| - 1].1;
      SubsetIndicesNested(classWise[..|classWise| - 1], num1, den1, num2, den2);
      ContributionNested(last, num1, den1, num2, den2);
      var c1 := Contribution(last, num1, den1);
      var c2 := Contribution(last, num2, den2);
      assert c2 == c1 + c2[|c1|..];
      assert multiset(c1) <= multiset(c2) by {
        assert multiset(c2) == multiset(c1) + multiset(c2[|c1|..]);
      }
    }
  }

  /** Every class ranking is duplicate-free and no index is ranked by two classes. */
  predicate Separated(classWise: ClassWise)
  {
    && (forall q :: 0 <= q < |classWise| ==> Distinct(classWise[q].1))
    && (forall p, q :: 0 <= p < q < |classWise| ==> Disjoint(classWise[p].1, classWise[q].1))
  }

  lemma DistinctAppend(a: seq<int>, b: seq<int>)
    requires Distinct(a) && Distinct(b) && Disjoint(a, b)
    ensures Distinct(a + b)
  {
    var s := a + b;
    forall i, j | 0 <= i < j < |s|
      ensures s[i] != s[j]
    {
      if j >= |a| && i < |a| {
        assert s[i] in a && s[j] in b;
      }
    }
  }

  /** Separated rankings give a final list without duplicates. */
  lemma {:induction false} SubsetIndicesDistinct(classWise: ClassWise, num: nat, den: nat)
    requires den > 0 && Separated(classWise)
    ensures Distinct(SubsetIndices(classWise, num, den))
  {
    if classWise != [] {
      var n := |classWise|;
      var init := classWise[..n - 1];
      var last := classWise[n - 1].1;
      assert forall q :: 0 <= q < |init| ==> init[q] == classWise[q];
      SubsetIndicesDistinct(init, num, den);
      var a := SubsetIndices(init, num, den);
      var c := Contribution(last, num, den);
      assert Distinct(c) by {
        assert forall i :: 0 <= i < |c| ==> c[i] == last[i];
      }
      assert Disjoint(a, c) by {
        forall x | x in a
          ensures x !in c
        {
          var q :| 0 <= q < |init| && x in init[q].1;
          assert Disjoint(classWise[q].1, last);
        }
      }
      DistinctAppend(a, c);
    }
  }

  lemma FloorSuperadditive(a: nat, b: nat, d: nat)
    requires d > 0
    ensures a / d + b / d <= (a + b) / d
  {
    var qa, qb := a / d, b / d;
    assert qa * d <= a && qb * d <= b;
    assert (qa + qb) * d == qa * d + qb * d;
    var q := (a + b) / d;
    assert (a + b) - q * d < d;
    if q < qa + qb {
      ProductMonotone(q + 1, qa + qb, d);
      assert false;
    }
  }

  /** The final list is never longer than `int(f * Σ_c l_c)`: summing the
      per-class floors never exceeds the floor of the sum. */
  lemma {:induction false} QuotaAtMostWhole(classWise: ClassWise, num: nat, den: nat)
    requires den > 0
    ensures TotalQuota(classWise, num, den) <= ScaledFloor(num, den, TotalRanked(classWise))
  {
    if classWise != [] {
      var init := classWise[..|classWise| - 1];
      var l := |classWise[|classWise| - 1].1|;
      var t := TotalRanked(init);
      QuotaAtMostWhole(init, num, den);
      var a, b := num * t, num * l;
      FloorSuperadditive(a, b, den);
      assert a + b == num * (t + l) by {
        Distribute(num, t, l);
      }
      assert TotalRanked(classWise) == t + l;
      assert ScaledFloor(num, den, t + l) == (a + b) / den;
    }
  }

  lemma Distribute(a: nat, b: nat, c: nat)
    ensures a * b + a * c == a * (b + c)
  {
  }

  /** A larger count never gets a smaller share. */
  lemma ScaledFloorGrows(num: nat, den: nat, x: nat, y: nat)
    requires den > 0 && x <= y
    ensures ScaledFloor(num, den, x) <= ScaledFloor(num, den, y)
  {
    var rx, ry := ScaledFloor(num, den, x), ScaledFloor(num, den, y);
    assert num * x <= num * y by {
      assert num * x == x * num && num * y == y * num;
      ProductMonotone(x, y, num);
    }
    if rx > ry {
      ProductMonotone(ry + 1, rx, den);
      assert false;
    }
  }
}
