/**
 * The concrete situations the test suite of the segment tree pins down,
 * each stated as a method whose postcondition is the expected outcome.
 */
module Scenarios {
  import opened Wrappers
  import opened Monoid
  import opened SegmentTree
  import opened SumTree
  import opened MinTree

  /** values = arange(lo, lo + n). */
  function Iota(lo: int, n: nat): (s: seq<int>)
    ensures |s| == n && forall i :: 0 <= i < n ==> s[i] == lo + i
  {
    seq(n, i => lo + i)
  }

  lemma {:induction false} SumIota(lo: int, n: nat)
    ensures 2 * Sum(Iota(lo, n)) == n * (2 * lo + n - 1)
  {
    if n > 0 {
      assert Iota(lo, n)[..n - 1] == Iota(lo, n - 1);
      SumIota(lo, n - 1);
      assert n * (2 * lo + n - 1) == (n - 1) * (2 * lo + n - 2) + 2 * (lo + n - 1);
    }
  }

  /** The sum of values[a:b] for values = arange(lo, lo + n). */
  lemma IotaRangeSum(lo: int, n: nat, a: nat, b: nat)
    requires a <= b <= n
    ensures 2 * Fold(Add, 0, Iota(lo, n)[a..b]) == (b - a) * (2 * (lo + a) + (b - a) - 1)
  {
    assert Iota(lo, n)[a..b] == Iota(lo + a, b - a);
    FoldIsSum(Iota(lo + a, b - a));
    SumIota(lo + a, b - a);
  }

  /** The leaves of the capacity-8 trees of the suite. */
  const Weights: seq<int> := [13, 7, 11, 17, 19, 5, 3, 23]

  function Finite(s: seq<int>): (r: seq<Ext>)
    ensures |r| == |s| && forall i :: 0 <= i < |s| ==> r[i] == Fin(s[i])
  {
    seq(|s|, i requires 0 <= i < |s| => Fin(s[i]))
  }

  /** Cumulative weights 0, 13, 20, 31, 48, 67, 72, 75, 98. */
  lemma WeightPrefixes()
    ensures Sum(Weights[..0]) == 0 && Sum(Weights[..1]) == 13 && Sum(Weights[..2]) == 20
    ensures Sum(Weights[..3]) == 31 && Sum(Weights[..4]) == 48 && Sum(Weights[..5]) == 67
    ensures Sum(Weights[..6]) == 72 && Sum(Weights[..7]) == 75 && Sum(Weights[..8]) == 98
  {
    assert Weights[..0] == [];
    PrefixStep(Weights, 0);
    PrefixStep(Weights, 1);
    PrefixStep(Weights, 2);
    PrefixStep(Weights, 3);
    PrefixStep(Weights, 4);
    PrefixStep(Weights, 5);
    PrefixStep(Weights, 6);
    PrefixStep(Weights, 7);
    assert Weights[..8] == Weights;
  }

  /** SumTree(capacity=14): 14 leaves, depth 5, all zero. */
  method SumTreeBasic() returns (length: nat, depth: nat, leafSum: int, root: int)
    ensures length == 14 && depth == 5 && leafSum == 0 && root == 0
  {
    var made := NewSumTree(14);
    var tr := made.value;
    var leaves := tr.Array();
    length, depth := |leaves|, tr.depth;
    assert Levels(2) == 2 && Levels(4) == 3 && Levels(7) == 4;
    SumZeros(leaves);
    leafSum := Sum(leaves);
    root := tr.RootValue();
    FoldIsSum(leaves);
  }

  /** MinTree(capacity=8) with the suite's leaves: depth 4, minimum 3. */
  method MinTreeBasic() returns (length: nat, depth: nat, root: Ext)
    ensures length == 8 && depth == 4 && root == Fin(3)
  {
    var made := NewMinTree(8);
    var tr := made.value;
    var _ := tr.SetAll(Finite(Weights));
    var leaves := tr.Array();
    length, depth := |leaves|, tr.depth;
    root := tr.RootValue();
    FoldMinIsMinimum(leaves);
    assert Le(root, leaves[6]);
  }

  /** A full write of arange(1, 15): the root is their sum, 105. */
  method SetValuesFull() returns (root: int)
    ensures root == 105
  {
    var made := NewSumTree(14);
    var tr := made.value;
    var _ := tr.SetAll(Iota(1, 14));
    root := tr.RootValue();
    IotaRangeSum(1, 14, 0, 14);
    assert Iota(1, 14)[0..14] == Iota(1, 14);
  }

  /** The suite's indexed write on fourteen zero leaves sums to 7 + 13 + 11 + 17 + 5 = 53. */
  lemma IndexedWriteSum()
    ensures Sum(Assign(seq(14, _ => 0), [2, 6, 5, 12, 13], [7, 13, 11, 17, 5])) == 53
  {
    var idx, values := [2, 6, 5, 12, 13], [7, 13, 11, 17, 5];
    AssignOnZerosSum(seq(14, _ => 0), idx, values);
    assert values[..0] == [];
    PrefixStep(values, 0);
    PrefixStep(values, 1);
    PrefixStep(values, 2);
    PrefixStep(values, 3);
    PrefixStep(values, 4);
    assert values[..5] == values;
  }

  /** An indexed write on a fresh tree: the root is the sum of the written values, 53. */
  method SetValuesWithIdx() returns (root: int)
    ensures root == 53
  {
    var made := NewSumTree(14);
    var tr := made.value;
    var _ := tr.SetItems([2, 6, 5, 12, 13], [7, 13, 11, 17, 5]);
    root := tr.RootValue();
    FoldIsSum(tr.Leaves());
    IndexedWriteSum();
  }

  /** partial_reduce(1, 1) is an empty range and is rejected with its message. */
  method PartialReduceEmptyRange() returns (r: Result<int, Error>)
    ensures r == Err(InconsistentRange(1, 1))
    ensures RangeMessage(r.error) == "inconsistent ranges detected from (start, stop) = (1, 1)"
  {
    var made := NewSumTree(14);
    var tr := made.value;
    r := tr.PartialReduce(1, Some(1));
    assert NatToString(1) == "1";
  }

  /** partial_reduce() over arange(1, 15) is the root value and the sum, 105. */
  method PartialReduceAll() returns (r: Result<int, Error>, root: int)
    ensures r == Ok(root) && root == 105
  {
    var made := NewSumTree(14);
    var tr := made.value;
    var _ := tr.SetAll(Iota(1, 14));
    r := tr.PartialReduce(0, None);
    root := tr.RootValue();
    IotaRangeSum(1, 14, 0, 14);
    assert Iota(1, 14)[0..14] == Iota(1, 14);
  }

  /** The naive sums of the six parametrized ranges of arange(100, 114). */
  lemma IotaRanges()
    ensures ReduceRange(Add, 0, Iota(100, 14), 1, Some(2)) == Ok(101)
    ensures ReduceRange(Add, 0, Iota(100, 14), 13, Some(14)) == Ok(113)
    ensures ReduceRange(Add, 0, Iota(100, 14), 3, Some(8)) == Ok(525)
    ensures ReduceRange(Add, 0, Iota(100, 14), 0, None) == Ok(1491)
    ensures ReduceRange(Add, 0, Iota(100, 14), 0, Some(3)) == Ok(303)
    ensures ReduceRange(Add, 0, Iota(100, 14), 7, None) == Ok(770)
  {
    IotaRangeSum(100, 14, 1, 2);
    IotaRangeSum(100, 14, 13, 14);
    IotaRangeSum(100, 14, 3, 8);
    IotaRangeSum(100, 14, 0, 14);
    IotaRangeSum(100, 14, 0, 3);
    IotaRangeSum(100, 14, 7, 14);
  }

  /** The six parametrized ranges over arange(100, 114). */
  method PartialReduceRanges() returns (a: Result<int, Error>, b: Result<int, Error>, c: Result<int, Error>,
                                        d: Result<int, Error>, e: Result<int, Error>, f: Result<int, Error>)
    ensures a == Ok(101) && b == Ok(113) && c == Ok(525)
    ensures d == Ok(1491) && e == Ok(303) && f == Ok(770)
  {
    var made := NewSumTree(14);
    var tr := made.value;
    var _ := tr.SetAll(Iota(100, 14));
    IotaRanges();
    a := tr.PartialReduce(1, Some(2));
    b := tr.PartialReduce(13, Some(14));
    c := tr.PartialReduce(3, Some(8));
    d := tr.PartialReduce(0, None);
    e := tr.PartialReduce(0, Some(3));
    f := tr.PartialReduce(7, None);
  }

  /** The naive sums of the batched ranges of arange(100, 114). */
  lemma IotaBatch()
    ensures ReduceRange(Add, 0, Iota(100, 14), 0, Some(1)) == Ok(100)
    ensures ReduceRange(Add, 0, Iota(100, 14), 8, Some(13)) == Ok(550)
    ensures ReduceRange(Add, 0, Iota(100, 14), 3, Some(14)) == Ok(1188)
    ensures ReduceRange(Add, 0, Iota(100, 14), 0, Some(5)) == Ok(510)
    ensures ReduceRange(Add, 0, Iota(100, 14), 0, Some(-1)) == Ok(1378)
  {
    IotaRangeSum(100, 14, 0, 1);
    IotaRangeSum(100, 14, 8, 13);
    IotaRangeSum(100, 14, 3, 14);
    IotaRangeSum(100, 14, 0, 5);
    IotaRangeSum(100, 14, 0, 13);
  }

  /** Batched sums over arange(100, 114); the stop -1 counts from the end. */
  method PartialReduceArraySum() returns (r: Result<seq<int>, Error>)
    ensures r == Ok([100, 550, 1188, 510, 1378])
  {
    var made := NewSumTree(14);
    var tr := made.value;
    var _ := tr.SetAll(Iota(100, 14));
    IotaBatch();
    r := tr.PartialReduceBatch([0, 8, 3, 0, 0], [1, 13, 14, 5, -1]);
    assert r.value == [100, 550, 1188, 510, 1378];
  }

  /** The naive minima of the batched ranges of the suite's leaves. */
  lemma WeightMinima()
    ensures ReduceRange(Min, Inf, Finite(Weights), 1, Some(8)) == Ok(Fin(3))
    ensures ReduceRange(Min, Inf, Finite(Weights), 6, Some(7)) == Ok(Fin(3))
    ensures ReduceRange(Min, Inf, Finite(Weights), 0, Some(5)) == Ok(Fin(7))
  {
    var leaves := Finite(Weights);
    RangeIsMinimum(leaves, 1, 8);
    assert Le(ReduceRange(Min, Inf, leaves, 1, Some(8)).value, leaves[6]);
    RangeIsMinimum(leaves, 6, 7);
    RangeIsMinimum(leaves, 0, 5);
    assert Le(ReduceRange(Min, Inf, leaves, 0, Some(5)).value, leaves[1]);
  }

  /** Batched minima over the suite's leaves. */
  method PartialReduceArrayMin() returns (r: Result<seq<Ext>, Error>)
    ensures r == Ok([Fin(3), Fin(3), Fin(7)])
  {
    var made := NewMinTree(8);
    var tr := made.value;
    var _ := tr.SetAll(Finite(Weights));
    WeightMinima();
    r := tr.PartialReduceBatch([1, 6, 0], [8, 7, 5]);
    assert r.value == [Fin(3), Fin(3), Fin(7)];
  }

  /** The uniforms of the inverse-CDF table, before normalisation by 98. */
  const Uniforms: seq<int> := [0, 5, 12, 13, 14, 19, 20, 25, 30, 31, 40, 47, 48, 50, 66, 67, 70, 71, 72, 73, 74, 75, 80, 97, 98]

  /** The leaf each row of the table expects. */
  const Expected: seq<nat> := [0, 0, 0, 1, 1, 1, 2, 2, 2, 3, 3, 3, 4, 4, 4, 5, 5, 5, 6, 6, 6, 7, 7, 7, 7]

  /** The leaf of the suite's leaves whose interval of cumulative weight holds t. */
  function Bucket(t: real): nat {
    if t < 13.0 then 0 else if t < 20.0 then 1 else if t < 31.0 then 2 else if t < 48.0 then 3
    else if t < 67.0 then 4 else if t < 72.0 then 5 else if t < 75.0 then 6 else 7
  }

  /** Bracketing a target over the suite's leaves pins the leaf down. */
  lemma BracketOf(t: real, i: int)
    requires Brackets(Weights, t, i)
    ensures i == Bucket(t)
  {
    WeightPrefixes();
    assert i == 0 || i == 1 || i == 2 || i == 3 || i == 4 || i == 5 || i == 6 || i == 7;
  }

  lemma BucketsMatch()
    ensures forall q :: 0 <= q < 24 ==> Bucket(Uniforms[q] as real) == Expected[q]
  {
  }

  /**
   * A descent over the suite's leaves that lands every row below the total
   * on a bracketing leaf, and the last row, the total itself, on leaf 7,
   * gives exactly the expected column.
   */
  lemma TableRows(rs: seq<nat>)
    requires |rs| == 25 && rs[24] == 7
    requires forall q :: 0 <= q < 24 ==> Brackets(Weights, Uniforms[q] as real, rs[q])
    ensures rs == Expected
  {
    BucketsMatch();
    forall q | 0 <= q < 24
      ensures rs[q] == Expected[q]
    {
      BracketOf(Uniforms[q] as real, rs[q]);
    }
  }

  /** The normalised uniforms k / 98 of the table. */
  function Normalised(ks: seq<int>): (us: seq<real>)
    ensures |us| == |ks| && forall q :: 0 <= q < |ks| ==> us[q] == ks[q] as real / 98.0
  {
    seq(|ks|, q requires 0 <= q < |ks| => ks[q] as real / 98.0)
  }

  lemma NormalisedRange()
    ensures forall q :: 0 <= q < 25 ==> 0.0 <= Normalised(Uniforms)[q] <= 1.0
    ensures forall q :: 0 <= q < 24 ==> Normalised(Uniforms)[q] < 1.0
    ensures forall q :: 0 <= q < 25 ==> Target(Normalised(Uniforms)[q], 98) == Uniforms[q] as real
    ensures Normalised(Uniforms)[24] == 1.0
  {
  }

  /** inverse_cdf over the whole table, normalised to the unit interval. */
  method InverseCdfTable() returns (r: Result<seq<nat>, Error>)
    ensures r == Ok(Expected)
  {
    var tr := TableTree();
    NormalisedRange();
    r := InverseCdfBatch(tr, Normalised(Uniforms));
    TableRows(r.value);
  }

  /** Row 0 of the table: target 0 over the table's weights is bracketed only by leaf 0. */
  lemma FirstRow(i: int)
    requires Brackets(Weights, Target(0.0, 98), i)
    ensures i == 0
  {
    BracketOf(Target(0.0, 98), i);
  }

  /** Row 10 of the table: target 40 over the table's weights is bracketed only by leaf 3. */
  lemma TenthRow(j: int)
    requires Brackets(Weights, Target(40.0 / 98.0, 98), j)
    ensures j == 3
  {
    assert Target(40.0 / 98.0, 98) == 40.0;
    BracketOf(40.0, j);
  }

  /** SumTree(capacity=8) holding the suite's leaves. */
  method TableTree() returns (tr: SegmentTree<int>)
    ensures fresh(tr.tree) && tr.Valid() && IsSumTree(tr)
    ensures tr.Leaves() == Weights && tr.size == 8
    ensures NonNegative(tr.Leaves()) && Sum(tr.Leaves()) == 98
  {
    var made := NewSumTree(8);
    tr := made.value;
    var _ := tr.SetAll(Weights);
    WeightPrefixes();
    assert Weights[..8] == Weights;
  }

  /** The scalar row 0 of the table: uniform 0 selects leaf 0. */
  method InverseCdfFirstRow() returns (r: Result<nat, Error>)
    ensures r == Ok(0)
  {
    var tr := TableTree();
    r := InverseCdf(tr, 0.0);
    FirstRow(r.value);
  }

  /** The scalar row 10 of the table: uniform 40/98 selects leaf 3. */
  method InverseCdfTenthRow() returns (r: Result<nat, Error>)
    ensures r == Ok(3)
  {
    var tr := TableTree();
    r := InverseCdf(tr, 40.0 / 98.0);
    TenthRow(r.value);
  }

  /** The scalar row -1 of the table: uniform 1 selects the last leaf, 7. */
  method InverseCdfLastRow() returns (r: Result<nat, Error>)
    ensures r == Ok(7)
  {
    var tr := TableTree();
    r := InverseCdf(tr, 1.0);
  }
}
