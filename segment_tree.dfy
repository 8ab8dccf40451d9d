/**
 * The fixed-capacity reduction tree behind prioritized experience replay.
 *
 * `capacity` leaves are padded with the identity up to `size`, the smallest
 * power of two not below `capacity`, and stored in heap layout in an array of
 * length 2 * size: the root is at index 1, the children of node k are at 2k and
 * 2k + 1, and leaf i is at size + i. Every internal node holds `op` of its two
 * children, so the root holds the reduction of all leaves. The engine is
 * generic in the operator; SumTree and MinTree instantiate it.
 */
module SegmentTree {
  import opened Wrappers
  import opened Monoid

  datatype Error =
    | InvalidArgument(capacity: int)              // capacity below 1
    | IndexOutOfRange(index: int)                 // a written leaf index outside [0, capacity)
    | LengthMismatch(expected: int, actual: int)  // lengths that must agree do not
    | InconsistentRange(start: int, stop: int)    // partial_reduce over an empty or inverted range
    | InvalidState                                // inverse CDF of a tree whose total is zero

  function Pow2(n: nat): (p: nat)
    ensures p >= 1
  {
    if n == 0 then 1 else 2 * Pow2(n - 1)
  }

  /** One level down, a node's slot range is twice as many positions, each half as wide. */
  lemma Halve(k: nat, h: nat)
    requires h >= 1
    ensures k * Pow2(h) == 2 * (k * Pow2(h - 1))
    ensures (k + 1) * Pow2(h) == 2 * ((k + 1) * Pow2(h - 1))
    ensures k >= 1 ==> k * Pow2(h - 1) >= 1
  {
  }

  lemma Widen(k: nat, h: nat)
    ensures k * Pow2(h) + Pow2(h) == (k + 1) * Pow2(h)
    ensures k + 1 <= (k + 1) * Pow2(h)
  {
  }

  /** The tree's depth: the number of levels, the root level and the leaf level included. */
  function Levels(capacity: nat): (d: nat)
    requires capacity >= 1
    ensures d >= 1
    ensures capacity <= Pow2(d - 1)                 // the padded leaf level holds every leaf ...
    ensures d == 1 || Pow2(d - 2) < capacity        // ... and is the smallest power of two that does
    decreases capacity
  {
    if capacity == 1 then 1 else 1 + Levels((capacity + 1) / 2)
  }

  /** Python's convention for a negative position: it counts from the end. */
  function Resolve(n: nat, x: int): int {
    if x < 0 then x + n else x
  }

  /**
   * The naive reference for partial_reduce(start, stop): resolve negative
   * positions, let an omitted stop mean the end, reject an empty or inverted
   * range, and otherwise fold the slice.
   */
  function ReduceRange<T>(op: (T, T) -> T, e: T, leaves: seq<T>, start: int, stop: Option<int>): Result<T, Error> {
    var hi := if stop.Some? then stop.value else |leaves|;
    var a, b := Resolve(|leaves|, start), Resolve(|leaves|, hi);
    if 0 <= a < b <= |leaves| then Ok(Fold(op, e, leaves[a..b])) else Err(InconsistentRange(start, hi))
  }

  /**
   * The leaves after writing values[q] at idx[q] for q = 0, 1, ... in turn:
   * a later write to the same position overrides an earlier one.
   */
  function Assign<T>(s: seq<T>, idx: seq<int>, values: seq<T>): (r: seq<T>)
    requires |idx| == |values|
    requires forall q :: 0 <= q < |idx| ==> 0 <= idx[q] < |s|
    ensures |r| == |s|
  {
    if idx == [] then s
    else Assign(s, idx[..|idx| - 1], values[..|values| - 1])[idx[|idx| - 1] := values[|values| - 1]]
  }

  /** The value the last write to position m leaves there, or `default` when nothing writes m. */
  function LastWrite<T>(idx: seq<int>, values: seq<T>, m: int, default: T): T
    requires |idx| == |values|
  {
    if idx == [] then default
    else if idx[|idx| - 1] == m then values[|values| - 1]
    else LastWrite(idx[..|idx| - 1], values[..|values| - 1], m, default)
  }

  /** Reading position m after the writes gives the last value written there, if any. */
  lemma {:induction false} AssignAt<T>(s: seq<T>, idx: seq<int>, values: seq<T>, m: int)
    requires |idx| == |values|
    requires forall q :: 0 <= q < |idx| ==> 0 <= idx[q] < |s|
    requires 0 <= m < |s|
    ensures Assign(s, idx, values)[m] == LastWrite(idx, values, m, s[m])
  {
    if idx != [] {
      AssignAt(s, idx[..|idx| - 1], values[..|values| - 1], m);
    }
  }

  lemma {:induction false} LastWriteUntouched<T>(idx: seq<int>, values: seq<T>, m: int, default: T)
    requires |idx| == |values| && m !in idx
    ensures LastWrite(idx, values, m, default) == default
  {
    if idx != [] {
      assert idx == idx[..|idx| - 1] + [idx[|idx| - 1]];
      LastWriteUntouched(idx[..|idx| - 1], values[..|values| - 1], m, default);
    }
  }

  lemma {:induction false} LastWriteOverrides<T>(idx: seq<int>, values: seq<T>, m: int, d1: T, d2: T)
    requires |idx| == |values| && m in idx
    ensures LastWrite(idx, values, m, d1) == LastWrite(idx, values, m, d2)
  {
    if idx[|idx| - 1] != m {
      assert idx == idx[..|idx| - 1] + [idx[|idx| - 1]];
      LastWriteOverrides(idx[..|idx| - 1], values[..|values| - 1], m, d1, d2);
    }
  }

  /** An indexed write changes only the named leaves. */
  lemma AssignOutside<T>(s: seq<T>, idx: seq<int>, values: seq<T>, m: int)
    requires |idx| == |values|
    requires forall q :: 0 <= q < |idx| ==> 0 <= idx[q] < |s|
    requires 0 <= m < |s| && m !in idx
    ensures Assign(s, idx, values)[m] == s[m]
  {
    AssignAt(s, idx, values, m);
    LastWriteUntouched(idx, values, m, s[m]);
  }

  /** Writing the same values at the same positions twice leaves what writing once leaves. */
  lemma AssignIdempotent<T>(s: seq<T>, idx: seq<int>, values: seq<T>)
    requires |idx| == |values|
    requires forall q :: 0 <= q < |idx| ==> 0 <= idx[q] < |s|
    ensures Assign(Assign(s, idx, values), idx, values) == Assign(s, idx, values)
  {
    var once := Assign(s, idx, values);
    var twice := Assign(once, idx, values);
    forall m | 0 <= m < |s|
      ensures twice[m] == once[m]
    {
      AssignAt(once, idx, values, m);
      AssignAt(s, idx, values, m);
      if m in idx {
        LastWriteOverrides(idx, values, m, once[m], s[m]);
      } else {
        LastWriteUntouched(idx, values, m, once[m]);
      }
    }
  }

  /** Reductions of adjacent ranges combine into the reduction of their union. */
  lemma ReduceRangeSplit<T(!new)>(op: (T, T) -> T, e: T, leaves: seq<T>, i: nat, j: nat, k: nat)
    requires IsMonoid(op, e) && i < j < k <= |leaves|
    ensures ReduceRange(op, e, leaves, i, Some(j)).Ok? && ReduceRange(op, e, leaves, j, Some(k)).Ok?
    ensures ReduceRange(op, e, leaves, i, Some(k))
            == Ok(op(ReduceRange(op, e, leaves, i, Some(j)).value, ReduceRange(op, e, leaves, j, Some(k)).value))
  {
    assert leaves[i..k] == leaves[i..j] + leaves[j..k];
    FoldAppend(op, e, leaves[i..j], leaves[j..k]);
  }

  /** partial_reduce() with no range reduces every leaf, like root_value. */
  lemma ReduceAll<T>(op: (T, T) -> T, e: T, leaves: seq<T>)
    requires |leaves| >= 1
    ensures ReduceRange(op, e, leaves, 0, None) == Ok(Fold(op, e, leaves))
  {
    assert leaves[0..|leaves|] == leaves;
  }

  /** An empty range is rejected, whatever its position, and the error names it. */
  lemma EmptyRangeRejected<T>(op: (T, T) -> T, e: T, leaves: seq<T>, i: int)
    ensures ReduceRange(op, e, leaves, i, Some(i)) == Err(InconsistentRange(i, i))
  {
  }

  function DigitChar(d: nat): char
    requires d < 10
  {
    "0123456789"[d]
  }

  function NatToString(n: nat): string
    decreases n
  {
    if n < 10 then [DigitChar(n)] else NatToString(n / 10) + [DigitChar(n % 10)]
  }

  function IntToString(x: int): string {
    if x < 0 then "-" + NatToString(-x) else NatToString(x)
  }

  /** The text of the IndexError raised for a rejected range. */
  function RangeMessage(e: Error): string
    requires e.InconsistentRange?
  {
    "inconsistent ranges detected from (start, stop) = (" + IntToString(e.start) + ", " + IntToString(e.stop) + ")"
  }

  /** True when node j is node k or one of its ancestors. */
  ghost predicate OnPath(j: int, k: int)
    decreases k
  {
    k >= 1 && (j == k || OnPath(j, k / 2))
  }

  class SegmentTree<T(!new)> {
    const capacity: nat
    const depth: nat
    const size: nat
    const op: (T, T) -> T
    const identity: T
    const tree: array<T>

    ghost predicate Valid()
      reads tree
    {
      Consistent() &&
      capacity >= 1 && depth >= 1 && capacity <= size && size == Pow2(depth - 1) &&
      // padding leaves hold the identity
      (forall m :: size + capacity <= m < 2 * size ==> tree[m] == identity)
    }

    /** The heap invariant: every internal node is op of its two children. */
    ghost predicate Consistent()
      reads tree
    {
      IsMonoid(op, identity) && tree.Length == 2 * size &&
      (forall k :: 1 <= k < size ==> Combined(k))
    }

    /** Node k holds op of its two children. */
    ghost predicate Combined(k: int)
      reads tree
    {
      1 <= k && 2 * k + 1 < tree.Length && tree[k] == op(tree[2 * k], tree[2 * k + 1])
    }

    /** The logical leaf view, of length capacity. */
    ghost function Leaves(): (s: seq<T>)
      reads tree
      requires Valid()
    {
      tree[size .. size + capacity]
    }

    /** A fresh tree: every leaf holds the identity. */
    constructor (capacity: nat, op: (T, T) -> T, identity: T)
      requires capacity >= 1 && IsMonoid(op, identity)
      ensures Valid() && fresh(tree)
      ensures this.capacity == capacity && this.op == op && this.identity == identity
      ensures depth == Levels(capacity)
      ensures Leaves() == seq(capacity, _ => identity)
    {
      this.capacity := capacity;
      this.op := op;
      this.identity := identity;
      depth := Levels(capacity);
      size := Pow2(Levels(capacity) - 1);
      tree := new T[2 * Pow2(Levels(capacity) - 1)](_ => identity);
    }

    /** Consecutive pairs one level down reduce to the same value as their parents. */
    lemma {:induction false} PairFold(a: nat, b: nat)
      requires Consistent() && 1 <= a <= b <= size
      ensures Fold(op, identity, tree[2 * a .. 2 * b]) == Fold(op, identity, tree[a .. b])
      decreases b - a
    {
      if a < b {
        PairFold(a, b - 1);
        var s, s1, s2 := tree[2 * a .. 2 * b], tree[2 * a .. 2 * b - 1], tree[2 * a .. 2 * b - 2];
        assert s[..|s| - 1] == s1 && s1[..|s1| - 1] == s2;
        assert Fold(op, identity, s) == op(Fold(op, identity, s1), tree[2 * b - 1]);
        assert Fold(op, identity, s1) == op(Fold(op, identity, s2), tree[2 * b - 2]);
        var t := tree[a .. b];
        assert t[..|t| - 1] == tree[a .. b - 1];
        assert Fold(op, identity, t) == op(Fold(op, identity, tree[a .. b - 1]), tree[b - 1]);
        assert Combined(b - 1);
        Assoc(op, identity, Fold(op, identity, s2), tree[2 * b - 2], tree[2 * b - 1]);
      }
    }

    /** Node k, h levels above the leaf level, reduces the 2^h slots below it. */
    lemma {:induction false} NodeIsFold(k: nat, h: nat)
      requires Consistent() && 1 <= k < 2 * size && (k + 1) * Pow2(h) <= 2 * size
      ensures k * Pow2(h) <= (k + 1) * Pow2(h)
      ensures Fold(op, identity, tree[k * Pow2(h) .. (k + 1) * Pow2(h)]) == tree[k]
    {
      Widen(k, h);
      if h == 0 {
        assert tree[k .. k + 1] == [tree[k]];
        FoldSingleton(op, identity, tree[k]);
      } else {
        var w := Pow2(h - 1);
        Halve(k, h);
        PairFold(k * w, (k + 1) * w);
        NodeIsFold(k, h - 1);
      }
    }

    /** The root holds the reduction of the leaves. */
    lemma RootIsFold()
      requires Valid()
      ensures tree[1] == Fold(op, identity, Leaves())
    {
      NodeIsFold(1, depth - 1);
      assert 1 * Pow2(depth - 1) == size && (1 + 1) * Pow2(depth - 1) == 2 * size;
      var padding := tree[size + capacity .. 2 * size];
      assert tree[size .. 2 * size] == tree[size .. size + capacity] + padding;
      assert forall i :: 0 <= i < |padding| ==> padding[i] == tree[size + capacity + i];
      FoldAppend(op, identity, Leaves(), padding);
      FoldIdentities(op, identity, padding);
    }

    /** root_value */
    method RootValue() returns (r: T)
      requires Valid()
      ensures r == Fold(op, identity, Leaves())
    {
      RootIsFold();
      r := tree[1];
    }

    /** The `array` property: a copy of the leaf view. */
    method Array() returns (s: seq<T>)
      requires Valid()
      ensures |s| == capacity && s == Leaves()
    {
      s := tree[size .. size + capacity];
    }

    /** Writes one leaf and repairs its ancestors, walking from its parent up to the root. */
    method Update(i: nat, v: T)
      requires Valid() && i < capacity
      modifies tree
      ensures Valid() && Leaves() == old(Leaves())[i := v]
    {
      var p := size + i;
      tree[p] := v;
      var k := p / 2;
      forall j | 1 <= j < size && !OnPath(j, k)
        ensures Combined(j)
      {
        assert old(Combined(j));
      }
      while k >= 1
        invariant 0 <= k < size
        invariant forall j :: 1 <= j < size && !OnPath(j, k) ==> Combined(j)
        invariant forall m :: size <= m < 2 * size ==> tree[m] == if m == p then v else old(tree[m])
        decreases k
      {
        label Before:
        tree[k] := op(tree[2 * k], tree[2 * k + 1]);
        forall j | 1 <= j < size && !OnPath(j, k / 2)
          ensures Combined(j)
        {
          if j != k {
            assert !OnPath(j, k) && old@Before(Combined(j));
          }
        }
        k := k / 2;
      }
      assert forall m :: 0 <= m < capacity ==> Leaves()[m] == old(Leaves())[i := v][m];
    }

    /**
     * tree[idx] = values: checks every index and the lengths first, so a
     * rejected call changes nothing, then writes the leaves in order.
     */
    method SetItems(idx: seq<int>, values: seq<T>) returns (r: Result<(), Error>)
      requires Valid()
      modifies tree
      ensures Valid()
      ensures r.Err? <==> |idx| != |values| || exists q :: 0 <= q < |idx| && !(0 <= idx[q] < capacity)
      ensures |idx| != |values| ==> r == Err(LengthMismatch(|idx|, |values|))
      ensures r.Err? && |idx| == |values| ==> r.error.IndexOutOfRange? && r.error.index in idx
                                              && !(0 <= r.error.index < capacity)
      ensures r.Err? ==> unchanged(tree)
      ensures r.Ok? ==> Leaves() == Assign(old(Leaves()), idx, values)
    {
      if |idx| != |values| {
        return Err(LengthMismatch(|idx|, |values|));
      }
      var j := 0;
      while j < |idx|
        invariant 0 <= j <= |idx|
        invariant forall q :: 0 <= q < j ==> 0 <= idx[q] < capacity
      {
        if !(0 <= idx[j] < capacity) {
          return Err(IndexOutOfRange(idx[j]));
        }
        j := j + 1;
      }
      j := 0;
      while j < |idx|
        invariant 0 <= j <= |idx|
        invariant Valid()
        invariant Leaves() == Assign(old(Leaves()), idx[..j], values[..j])
      {
        assert idx[..j + 1][..j] == idx[..j] && values[..j + 1][..j] == values[..j];
        Update(idx[j], values[j]);
        j := j + 1;
      }
      assert idx[..j] == idx && values[..j] == values;
      r := Ok(());
    }

    /**
     * tree[:] = values (also spelled tree[None], tree[...] and tree.array =):
     * replaces every leaf, then rebuilds the internal nodes bottom-up.
     */
    method SetAll(values: seq<T>) returns (r: Result<(), Error>)
      requires Valid()
      modifies tree
      ensures Valid()
      ensures r.Ok? <==> |values| == capacity
      ensures r.Err? ==> r.error == LengthMismatch(capacity, |values|) && unchanged(tree)
      ensures r.Ok? ==> Leaves() == values
    {
      if |values| != capacity {
        return Err(LengthMismatch(capacity, |values|));
      }
      var i := 0;
      while i < capacity
        invariant 0 <= i <= capacity
        invariant forall m :: size <= m < 2 * size ==>
                    tree[m] == if m < size + i then values[m - size] else old(tree[m])
      {
        tree[size + i] := values[i];
        i := i + 1;
      }
      var k := size - 1;
      while k >= 1
        invariant 0 <= k < size
        invariant forall j :: k < j < size ==> Combined(j)
        invariant forall m :: size <= m < 2 * size ==>
                    tree[m] == if m < size + capacity then values[m - size] else identity
      {
        label Before:
        tree[k] := op(tree[2 * k], tree[2 * k + 1]);
        forall j | k <= j < size
          ensures Combined(j)
        {
          if j != k {
            assert old@Before(Combined(j));
          }
        }
        k := k - 1;
      }
      r := Ok(());
    }

    /** The left cursor, on a right child, takes that node into the left accumulator. */
    lemma TakeLeft(lo: nat, up: nat, left: T, right: T)
      requires Consistent() && 1 <= lo < up <= 2 * size
      ensures op(op(left, Fold(op, identity, tree[lo .. up])), right)
              == op(op(op(left, tree[lo]), Fold(op, identity, tree[lo + 1 .. up])), right)
    {
      FoldFirst(op, identity, tree[lo .. up]);
      assert tree[lo .. up][1..] == tree[lo + 1 .. up];
      Assoc(op, identity, left, tree[lo], Fold(op, identity, tree[lo + 1 .. up]));
    }

    /** The right cursor, just past a left child, takes that node into the right accumulator. */
    lemma TakeRight(lo: nat, up: nat, left: T, right: T)
      requires Consistent() && 1 <= lo < up <= 2 * size
      ensures op(op(left, Fold(op, identity, tree[lo .. up])), right)
              == op(op(left, Fold(op, identity, tree[lo .. up - 1])), op(tree[up - 1], right))
    {
      var u := tree[lo .. up];
      assert u[..|u| - 1] == tree[lo .. up - 1];
      var rest := Fold(op, identity, tree[lo .. up - 1]);
      Assoc(op, identity, left, rest, tree[up - 1]);
      Assoc(op, identity, op(left, rest), tree[up - 1], right);
    }

    /** One climb of both cursors, which keeps the reduction they stand for. */
    lemma Climb(i: nat, j: nat, left: T, right: T, whole: T)
      requires Consistent() && 1 <= i < j <= 2 * size
      requires whole == op(op(left, Fold(op, identity, tree[i .. j])), right)
      ensures var i', j' := (if i % 2 == 1 then i + 1 else i) / 2, (if j % 2 == 1 then j - 1 else j) / 2;
              1 <= i' <= j' < j &&
              whole == op(op(if i % 2 == 1 then op(left, tree[i]) else left,
                             Fold(op, identity, tree[i' .. j'])),
                          if j % 2 == 1 then op(tree[j - 1], right) else right)
    {
      var i1, left1 := i, left;
      if i % 2 == 1 {
        TakeLeft(i, j, left, right);
        i1, left1 := i + 1, op(left, tree[i]);
      }
      var j1, right1 := j, right;
      if j % 2 == 1 {
        TakeRight(i1, j, left1, right);
        j1, right1 := j - 1, op(tree[j - 1], right);
      }
      assert whole == op(op(left1, Fold(op, identity, tree[i1 .. j1])), right1);
      var a, b := i1 / 2, j1 / 2;
      assert i1 == 2 * a && j1 == 2 * b;
      PairFold(a, b);
      assert Fold(op, identity, tree[i1 .. j1]) == Fold(op, identity, tree[a .. b]);
      assert a == (if i % 2 == 1 then i + 1 else i) / 2 && b == (if j % 2 == 1 then j - 1 else j) / 2;
      assert left1 == (if i % 2 == 1 then op(left, tree[i]) else left);
    }

    /**
     * The iterative range query over tree slots [lo, up). Two cursors climb
     * towards the root; a left cursor on a right child, or a right cursor just
     * past a left child, takes that node into its side's accumulator.
     */
    method ReduceSlots(lo: nat, up: nat) returns (x: T)
      requires Consistent() && 1 <= lo <= up <= 2 * size
      ensures x == Fold(op, identity, tree[lo .. up])
    {
      var i, j := lo, up;
      var left, right := identity, identity;
      ghost var whole := Fold(op, identity, tree[lo .. up]);
      FoldSingleton(op, identity, identity);
      while i < j
        invariant 1 <= i <= j <= 2 * size
        invariant whole == op(op(left, Fold(op, identity, tree[i .. j])), right)
        decreases j
      {
        Climb(i, j, left, right, whole);
        left := if i % 2 == 1 then op(left, tree[i]) else left;
        right := if j % 2 == 1 then op(tree[j - 1], right) else right;
        i := (if i % 2 == 1 then i + 1 else i) / 2;
        j := (if j % 2 == 1 then j - 1 else j) / 2;
      }
      x := op(left, right);
    }

    /** Leaves a to b sit in slots size + a to size + b. */
    lemma LeafSlice(a: nat, b: nat)
      requires Valid() && a <= b <= capacity
      ensures tree[size + a .. size + b] == Leaves()[a..b]
    {
      forall m | 0 <= m < b - a
        ensures tree[size + a .. size + b][m] == Leaves()[a..b][m]
      {
      }
    }

    /**
     * partial_reduce(start, stop): a negative position counts from the end, an
     * omitted stop means capacity, and an empty or inverted range is rejected.
     */
    method PartialReduce(start: int, stop: Option<int>) returns (r: Result<T, Error>)
      requires Valid()
      ensures r == ReduceRange(op, identity, Leaves(), start, stop)
    {
      var hi := if stop.Some? then stop.value else capacity;
      var a, b := Resolve(capacity, start), Resolve(capacity, hi);
      if !(0 <= a < b <= capacity) {
        return Err(InconsistentRange(start, hi));
      }
      var x := ReduceSlots(size + a, size + b);
      LeafSlice(a, b);
      r := Ok(x);
    }

    /**
     * partial_reduce(starts, stops) over arrays of ranges: the elementwise
     * scalar reduction, or the first rejected range's error.
     */
    method PartialReduceBatch(starts: seq<int>, stops: seq<int>) returns (r: Result<seq<T>, Error>)
      requires Valid()
      ensures |starts| != |stops| ==> r == Err(LengthMismatch(|starts|, |stops|))
      ensures |starts| == |stops| ==>
                (r.Ok? <==> forall q :: 0 <= q < |starts| ==>
                   ReduceRange(op, identity, Leaves(), starts[q], Some(stops[q])).Ok?)
      ensures r.Ok? ==> (|r.value| == |starts| &&
                forall q :: 0 <= q < |starts| ==>
                  ReduceRange(op, identity, Leaves(), starts[q], Some(stops[q])) == Ok(r.value[q]))
      ensures r.Err? && |starts| == |stops| ==>
                exists q :: 0 <= q < |starts| &&
                  ReduceRange(op, identity, Leaves(), starts[q], Some(stops[q])) == Err(r.error)
    {
      if |starts| != |stops| {
        return Err(LengthMismatch(|starts|, |stops|));
      }
      var out: seq<T> := [];
      var q := 0;
      while q < |starts|
        invariant 0 <= q <= |starts| && |out| == q
        invariant forall p :: 0 <= p < q ==>
                    ReduceRange(op, identity, Leaves(), starts[p], Some(stops[p])) == Ok(out[p])
      {
        var x := PartialReduce(starts[q], Some(stops[q]));
        if x.Err? {
          return Err(x.error);
        }
        out := out + [x.value];
        q := q + 1;
      }
      r := Ok(out);
    }
  }
}
