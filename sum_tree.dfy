/**
 * SumTree: the reduction tree with + and identity 0, the structure that
 * prioritized replay samples from. Beyond the shared engine it answers the
 * inverse CDF: the leaf whose interval of cumulative weight holds a target.
 */
module SumTree {
  import opened Wrappers
  import opened Monoid
  import opened SegmentTree

  function Add(a: int, b: int): int {
    a + b
  }

  /** The reference sum, from the left. */
  function Sum(s: seq<int>): int {
    if s == [] then 0 else Sum(s[..|s| - 1]) + s[|s| - 1]
  }

  ghost predicate IsSumTree(tr: SegmentTree<int>) {
    tr.op == Add && tr.identity == 0
  }

  ghost predicate NonNegative(s: seq<int>) {
    forall i :: 0 <= i < |s| ==> s[i] >= 0
  }

  /** Leaf i's interval [prefix(i), prefix(i + 1)) of cumulative weight holds t. */
  ghost predicate Brackets(w: seq<int>, t: real, i: int) {
    0 <= i < |w| && Sum(w[..i]) as real <= t < Sum(w[..i + 1]) as real
  }

  lemma AddIsMonoid()
    ensures IsMonoid(Add, 0)
  {
    forall x, y, z ensures Grouped(Add, x, y, z) == Add(x, Add(y, z)) {
    }
  }

  lemma {:induction false} FoldIsSum(s: seq<int>)
    ensures Fold(Add, 0, s) == Sum(s)
  {
    if s != [] {
      FoldIsSum(s[..|s| - 1]);
    }
  }

  lemma {:induction false} SumAppend(s: seq<int>, t: seq<int>)
    ensures Sum(s + t) == Sum(s) + Sum(t)
    decreases |t|
  {
    if t == [] {
      assert s + t == s;
    } else {
      assert (s + t)[..|s + t| - 1] == s + t[..|t| - 1];
      SumAppend(s, t[..|t| - 1]);
    }
  }

  lemma SumSplit(s: seq<int>, a: nat, b: nat, c: nat)
    requires a <= b <= c <= |s|
    ensures Sum(s[a..c]) == Sum(s[a..b]) + Sum(s[b..c])
  {
    assert s[a..c] == s[a..b] + s[b..c];
    SumAppend(s[a..b], s[b..c]);
  }

  lemma {:induction false} SumNonNegative(s: seq<int>)
    requires NonNegative(s)
    ensures Sum(s) >= 0
  {
    if s != [] {
      SumNonNegative(s[..|s| - 1]);
    }
  }

  lemma {:induction false} SumZeros(s: seq<int>)
    requires forall i :: 0 <= i < |s| ==> s[i] == 0
    ensures Sum(s) == 0
  {
    if s != [] {
      SumZeros(s[..|s| - 1]);
    }
  }

  /** Overwriting one weight moves the total by the difference. */
  lemma SumUpdate(s: seq<int>, i: nat, x: int)
    requires i < |s|
    ensures Sum(s[i := x]) == Sum(s) - s[i] + x
  {
    assert s == s[..i] + [s[i]] + s[i + 1..];
    assert s[i := x] == s[..i] + [x] + s[i + 1..];
    SumAppend(s[..i] + [s[i]], s[i + 1..]);
    SumAppend(s[..i], [s[i]]);
    SumAppend(s[..i] + [x], s[i + 1..]);
    SumAppend(s[..i], [x]);
  }

  /**
   * Distinct indexed writes on all-zero leaves: every other leaf stays 0, so
   * the total is the sum of just the written values.
   */
  lemma {:induction false} AssignOnZerosSum(s: seq<int>, idx: seq<int>, values: seq<int>)
    requires |idx| == |values|
    requires forall q :: 0 <= q < |idx| ==> 0 <= idx[q] < |s|
    requires forall p, q :: 0 <= p < q < |idx| ==> idx[p] != idx[q]
    requires forall i :: 0 <= i < |s| ==> s[i] == 0
    ensures Sum(Assign(s, idx, values)) == Sum(values)
  {
    if idx == [] {
      SumZeros(s);
    } else {
      var n := |idx| - 1;
      var before := Assign(s, idx[..n], values[..n]);
      assert Assign(s, idx, values) == before[idx[n] := values[n]];
      assert Sum(values) == Sum(values[..n]) + values[n];
      AssignOnZerosSum(s, idx[..n], values[..n]);
      assert idx[n] !in idx[..n] by {
        forall q | 0 <= q < n ensures idx[..n][q] != idx[n] {
          assert idx[q] != idx[n];
        }
      }
      AssignOutside(s, idx[..n], values[..n], idx[n]);
      SumUpdate(before, idx[n], values[n]);
    }
  }

  /** Each prefix sum is the previous one plus the next weight. */
  lemma PrefixStep(w: seq<int>, i: nat)
    requires i < |w|
    ensures Sum(w[..i + 1]) == Sum(w[..i]) + w[i]
  {
    assert w[..i + 1][..i] == w[..i];
  }

  /** Cumulative weights never decrease along non-negative leaves. */
  lemma PrefixMonotone(w: seq<int>, i: nat, j: nat)
    requires NonNegative(w) && i <= j <= |w|
    ensures Sum(w[..i]) <= Sum(w[..j])
  {
    assert w[..j] == w[..i] + w[i..j];
    SumAppend(w[..i], w[i..j]);
    SumNonNegative(w[i..j]);
  }

  /** Over non-negative weights at most one leaf brackets a target. */
  lemma BracketsUnique(w: seq<int>, t: real, i: int, j: int)
    requires NonNegative(w) && Brackets(w, t, i) && Brackets(w, t, j)
    ensures i == j
  {
    if i < j {
      PrefixMonotone(w, i + 1, j);
    } else if j < i {
      PrefixMonotone(w, j + 1, i);
    }
  }

  /** SumTree(capacity): every leaf starts at 0. */
  method NewSumTree(capacity: int) returns (r: Result<SegmentTree<int>, Error>)
    ensures r.Err? <==> capacity < 1
    ensures r.Err? ==> r.error == InvalidArgument(capacity)
    ensures r.Ok? ==> fresh(r.value) && fresh(r.value.tree) && r.value.Valid() && IsSumTree(r.value)
                      && r.value.capacity == capacity && r.value.depth == Levels(capacity)
                      && r.value.Leaves() == seq(capacity, _ => 0)
  {
    if capacity < 1 {
      return Err(InvalidArgument(capacity));
    }
    AddIsMonoid();
    var tr := new SegmentTree(capacity, Add, 0);
    r := Ok(tr);
  }

  /** root_value of a sum tree is the sum of its leaves. */
  lemma RootIsSum(tr: SegmentTree<int>)
    requires tr.Valid() && IsSumTree(tr)
    ensures tr.tree[1] == Sum(tr.Leaves())
  {
    tr.RootIsFold();
    FoldIsSum(tr.Leaves());
  }

  /** The padded leaf level sums to the same total as the leaves. */
  lemma LeafLevelSum(tr: SegmentTree<int>)
    requires tr.Valid() && IsSumTree(tr)
    ensures Sum(tr.tree[tr.size .. 2 * tr.size]) == Sum(tr.Leaves())
  {
    var level := tr.tree[..];
    SumSplit(level, tr.size, tr.size + tr.capacity, 2 * tr.size);
    SumZeros(level[tr.size + tr.capacity .. 2 * tr.size]);
  }

  /**
   * Where one sample of the descent stands: at node k, covering the w slots
   * [lo, lo + w) of the padded leaf level. The original target t0 is the
   * weight of the slots to the left of that range plus the remaining target t.
   */
  ghost predicate Window(tr: SegmentTree<int>, t0: real, k: int, lo: int, w: int, t: real)
    reads tr.tree
  {
    tr.tree.Length == 2 * tr.size &&
    1 <= k < 2 * tr.size && tr.size <= lo && w >= 1 && lo + w <= 2 * tr.size &&
    t0 == Sum(tr.tree[tr.size .. lo]) as real + t &&
    (tr.tree[1] > 0 ==> 0.0 <= t <= tr.tree[k] as real) &&
    (t == tr.tree[k] as real ==> lo + w == 2 * tr.size)
  }

  /** The window of a node h levels above the leaves is [k * 2^h, k * 2^h + 2^h). */
  ghost predicate DescentState(tr: SegmentTree<int>, t0: real, k: int, h: nat, t: real)
    reads tr.tree
  {
    Window(tr, t0, k, k * Pow2(h), Pow2(h), t)
  }

  lemma Children(k: int, h: nat)
    requires h >= 1
    ensures Pow2(h) == 2 * Pow2(h - 1)
    ensures (2 * k) * Pow2(h - 1) == k * Pow2(h)
    ensures (2 * k + 1) * Pow2(h - 1) == k * Pow2(h) + Pow2(h - 1)
  {
  }

  /** A node whose range of 2^h slots, h >= 1, fits in the tree is internal. */
  lemma Internal(k: nat, h: nat, size: nat)
    requires h >= 1 && k * Pow2(h) + Pow2(h) <= 2 * size
    ensures k < size
  {
    Widen(k, h);
    Halve(k, h);
    Widen(k, h - 1);
  }

  /** The target a uniform u selects: u times the total weight. */
  function Target(u: real, total: int): real {
    u * (total as real)
  }

  lemma TargetBounds(u: real, total: int)
    requires 0.0 <= u <= 1.0
    ensures total > 0 ==> 0.0 <= Target(u, total) <= total as real
    ensures total > 0 && u < 1.0 ==> Target(u, total) < total as real
    ensures u == 1.0 ==> Target(u, total) == total as real
  {
    var x := total as real;
    if total > 0 {
      assert u * x <= 1.0 * x;
      if u < 1.0 {
        assert u * x < 1.0 * x;
      }
    }
  }

  lemma DescentStart(tr: SegmentTree<int>, u: real)
    requires tr.Valid() && IsSumTree(tr) && 0.0 <= u <= 1.0
    ensures DescentState(tr, Target(u, tr.tree[1]), 1, tr.depth - 1, Target(u, tr.tree[1]))
  {
    assert tr.tree[tr.size .. tr.size] == [];
    TargetBounds(u, tr.tree[1]);
  }

  /**
   * Splitting a window in two halves: the left child covers the first half,
   * whose weight is the left child's value.
   */
  lemma WindowStep(tr: SegmentTree<int>, t0: real, k: int, lo: int, w: int, t: real)
    requires IsSumTree(tr) && Window(tr, t0, k, lo, 2 * w, t) && w >= 1 && 1 <= k < tr.size
    requires tr.Combined(k) && Sum(tr.tree[lo .. lo + w]) == tr.tree[2 * k]
    ensures var left := tr.tree[2 * k] as real;
            if t < left then Window(tr, t0, 2 * k, lo, w, t)
            else Window(tr, t0, 2 * k + 1, lo + w, w, t - left)
  {
    SumSplit(tr.tree[..], tr.size, lo, lo + w);
    assert tr.tree[..][tr.size .. lo + w] == tr.tree[tr.size .. lo + w];
  }

  /** One level of the descent: compare with the left child, go left or go right past it. */
  lemma DescendStep(tr: SegmentTree<int>, t0: real, k: int, h: nat, t: real)
    requires tr.Valid() && IsSumTree(tr) && h >= 1 && DescentState(tr, t0, k, h, t)
    ensures 2 * k + 1 < tr.tree.Length
    ensures var left := tr.tree[2 * k] as real;
            if t < left then DescentState(tr, t0, 2 * k, h - 1, t)
            else DescentState(tr, t0, 2 * k + 1, h - 1, t - left)
  {
    var w := Pow2(h - 1);
    var lo := k * Pow2(h);
    Children(k, h);
    Internal(k, h, tr.size);
    assert tr.Combined(k);
    Widen(2 * k, h - 1);
    tr.NodeIsFold(2 * k, h - 1);
    FoldIsSum(tr.tree[lo .. lo + w]);
    WindowStep(tr, t0, k, lo, w, t);
  }

  /** A window of one slot below the total is the leaf bracketing t0. */
  lemma LeafBelowTotal(tr: SegmentTree<int>, t0: real, k: int, t: real)
    requires tr.Valid() && IsSumTree(tr) && Window(tr, t0, k, k, 1, t)
    requires 0.0 <= t0 < Sum(tr.Leaves()) as real
    ensures k - tr.size < tr.capacity && Brackets(tr.Leaves(), t0, k - tr.size)
  {
    var size, level := tr.size, tr.tree[..];
    RootIsSum(tr);
    LeafLevelSum(tr);
    SumSplit(level, size, k, k + 1);
    assert level[k .. k + 1] == [tr.tree[k]];
    assert Sum([tr.tree[k]]) == tr.tree[k];
    SumSplit(level, size, k + 1, 2 * size);
    if t == tr.tree[k] as real {
      assert false;
    }
    var i := k - size;
    assert tr.Leaves()[..i] == level[size .. k];
    assert tr.Leaves()[..i + 1] == level[size .. k + 1];
  }

  /** Over non-negative weights, a target equal to a positive total ends in the last slot. */
  lemma LeafAtTotal(tr: SegmentTree<int>, t0: real, k: int, t: real)
    requires tr.Valid() && IsSumTree(tr) && Window(tr, t0, k, k, 1, t)
    requires NonNegative(tr.Leaves()) && Sum(tr.Leaves()) > 0 && t0 == Sum(tr.Leaves()) as real
    ensures k == 2 * tr.size - 1
  {
    var size, level := tr.size, tr.tree[..];
    RootIsSum(tr);
    LeafLevelSum(tr);
    SumSplit(level, size, k, k + 1);
    assert level[k .. k + 1] == [tr.tree[k]];
    assert Sum([tr.tree[k]]) == tr.tree[k];
    SumSplit(level, size, k + 1, 2 * size);
    forall slot | k + 1 <= slot < 2 * size
      ensures level[slot] >= 0
    {
      if slot < size + tr.capacity {
        assert level[slot] == tr.Leaves()[slot - size];
      }
    }
    assert NonNegative(level[k + 1 .. 2 * size]);
    SumNonNegative(level[k + 1 .. 2 * size]);
  }

  /**
   * What a finished sample promises about the leaf index i it lands on for
   * the target t0: a target below the total lands on the leaf whose interval
   * brackets it, and over non-negative weights the total itself lands on the
   * last slot of the padded leaf level.
   */
  ghost predicate Lands(tr: SegmentTree<int>, t0: real, i: int)
    reads tr.tree
    requires tr.Valid()
  {
    0 <= i < tr.size &&
    (0.0 <= t0 < Sum(tr.Leaves()) as real ==> i < tr.capacity && Brackets(tr.Leaves(), t0, i)) &&
    (NonNegative(tr.Leaves()) && Sum(tr.Leaves()) > 0 && t0 == Sum(tr.Leaves()) as real ==> i == tr.size - 1)
  }

  lemma DescentDone(tr: SegmentTree<int>, t0: real, k: int, t: real)
    requires tr.Valid() && IsSumTree(tr) && DescentState(tr, t0, k, 0, t)
    ensures Lands(tr, t0, k - tr.size)
  {
    assert Window(tr, t0, k, k, 1, t);
    if 0.0 <= t0 < Sum(tr.Leaves()) as real {
      LeafBelowTotal(tr, t0, k, t);
    }
    if NonNegative(tr.Leaves()) && Sum(tr.Leaves()) > 0 && t0 == Sum(tr.Leaves()) as real {
      LeafAtTotal(tr, t0, k, t);
    }
  }

  /**
   * One vectorized round of the descent: every sample compares its remaining
   * target with the left child of its node and moves one level down.
   */
  method DescendLevel(tr: SegmentTree<int>, ghost targets: seq<real>, nodes: seq<int>, rest: seq<real>, h: nat)
    returns (next: seq<int>, nextRest: seq<real>)
    requires tr.Valid() && IsSumTree(tr) && h >= 1
    requires |nodes| == |targets| && |rest| == |targets|
    requires forall s :: 0 <= s < |targets| ==> DescentState(tr, targets[s], nodes[s], h, rest[s])
    ensures |next| == |targets| && |nextRest| == |targets|
    ensures forall s :: 0 <= s < |targets| ==> DescentState(tr, targets[s], next[s], h - 1, nextRest[s])
  {
    next, nextRest := [], [];
    var s := 0;
    while s < |nodes|
      invariant 0 <= s <= |targets| && |next| == s && |nextRest| == s
      invariant forall q :: 0 <= q < s ==> DescentState(tr, targets[q], next[q], h - 1, nextRest[q])
    {
      DescendStep(tr, targets[s], nodes[s], h, rest[s]);
      var k := nodes[s];
      var left := tr.tree[2 * k] as real;
      if rest[s] < left {
        next, nextRest := next + [2 * k], nextRest + [rest[s]];
      } else {
        next, nextRest := next + [2 * k + 1], nextRest + [rest[s] - left];
      }
      s := s + 1;
    }
  }

  /** The leaf each sample reached, as a logical index. */
  method LeafIndices(tr: SegmentTree<int>, ghost targets: seq<real>, nodes: seq<int>, ghost rest: seq<real>)
    returns (idx: seq<nat>)
    requires tr.Valid() && IsSumTree(tr)
    requires |nodes| == |targets| && |rest| == |targets|
    requires forall s :: 0 <= s < |targets| ==> DescentState(tr, targets[s], nodes[s], 0, rest[s])
    ensures |idx| == |targets|
    ensures forall s :: 0 <= s < |targets| ==> Lands(tr, targets[s], idx[s])
  {
    idx := [];
    var s := 0;
    while s < |nodes|
      invariant 0 <= s <= |targets| && |idx| == s
      invariant forall q :: 0 <= q < s ==> Lands(tr, targets[q], idx[q])
    {
      DescentDone(tr, targets[s], nodes[s], rest[s]);
      idx := idx + [nodes[s] - tr.size];
      s := s + 1;
    }
  }

  /**
   * inverse_cdf over an array of uniforms, in the vectorized form: all samples
   * descend together, one level per round, each comparing its remaining
   * target with its node's left child.
   */
  method InverseCdfBatch(tr: SegmentTree<int>, us: seq<real>) returns (r: Result<seq<nat>, Error>)
    requires tr.Valid() && IsSumTree(tr)
    requires forall s :: 0 <= s < |us| ==> 0.0 <= us[s] <= 1.0
    ensures r.Err? <==> Sum(tr.Leaves()) == 0
    ensures r.Err? ==> r.error == InvalidState
    ensures r.Ok? ==> |r.value| == |us| && forall s :: 0 <= s < |us| ==> r.value[s] < tr.size
    ensures r.Ok? && Sum(tr.Leaves()) > 0 ==>
              forall s :: 0 <= s < |us| && us[s] < 1.0 ==>
                r.value[s] < tr.capacity && Brackets(tr.Leaves(), Target(us[s], Sum(tr.Leaves())), r.value[s])
    ensures r.Ok? && Sum(tr.Leaves()) > 0 && NonNegative(tr.Leaves()) ==>
              forall s :: 0 <= s < |us| && us[s] == 1.0 ==> r.value[s] == tr.size - 1
  {
    RootIsSum(tr);
    var total := tr.tree[1];
    if total == 0 {
      return Err(InvalidState);
    }
    var n := |us|;
    ghost var targets := seq(n, s requires 0 <= s < n => Target(us[s], total));
    var nodes := seq(n, s => 1);
    var rest := seq(n, s requires 0 <= s < n => Target(us[s], total));
    var h: nat := tr.depth - 1;
    forall s | 0 <= s < n
      ensures DescentState(tr, targets[s], nodes[s], h, rest[s])
    {
      DescentStart(tr, us[s]);
    }
    while h > 0
      invariant |nodes| == n && |rest| == n
      invariant forall s :: 0 <= s < n ==> DescentState(tr, targets[s], nodes[s], h, rest[s])
    {
      nodes, rest := DescendLevel(tr, targets, nodes, rest, h);
      h := h - 1;
    }
    var idx := LeafIndices(tr, targets, nodes, rest);
    forall s | 0 <= s < n
      ensures total > 0 && us[s] < 1.0 ==> 0.0 <= targets[s] < total as real
      ensures us[s] == 1.0 ==> targets[s] == total as real
    {
      TargetBounds(us[s], total);
    }
    r := Ok(idx);
  }

  /** inverse_cdf(u) for one uniform. */
  method InverseCdf(tr: SegmentTree<int>, u: real) returns (r: Result<nat, Error>)
    requires tr.Valid() && IsSumTree(tr) && 0.0 <= u <= 1.0
    ensures r.Err? <==> Sum(tr.Leaves()) == 0
    ensures r.Err? ==> r.error == InvalidState
    ensures r.Ok? ==> r.value < tr.size
    ensures r.Ok? && Sum(tr.Leaves()) > 0 && u < 1.0 ==>
              r.value < tr.capacity && Brackets(tr.Leaves(), Target(u, Sum(tr.Leaves())), r.value)
    ensures r.Ok? && Sum(tr.Leaves()) > 0 && NonNegative(tr.Leaves()) && u == 1.0 ==> r.value == tr.size - 1
  {
    var batch := InverseCdfBatch(tr, [u]);
    if batch.Err? {
      return Err(batch.error);
    }
    r := Ok(batch.value[0]);
  }
}
