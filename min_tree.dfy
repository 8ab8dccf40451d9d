/**
 * MinTree: the reduction tree with min and identity +infinity, used to track
 * the smallest priority. Leaves are integers extended with an infinity so
 * that min has an identity.
 */
module MinTree {
  import opened Wrappers
  import opened Monoid
  import opened SegmentTree

  /** An integer, or +infinity. */
  datatype Ext = Fin(value: int) | Inf

  predicate Le(a: Ext, b: Ext) {
    b.Inf? || (a.Fin? && a.value <= b.value)
  }

  function Min(a: Ext, b: Ext): Ext {
    if Le(a, b) then a else b
  }

  ghost predicate IsMinTree(tr: SegmentTree<Ext>) {
    tr.op == Min && tr.identity == Inf
  }

  lemma MinIsMonoid()
    ensures IsMonoid(Min, Inf)
  {
    forall x, y, z ensures Grouped(Min, x, y, z) == Min(x, Min(y, z)) {
    }
  }

  /** min is a lower bound that is attained, and +infinity exactly on no finite element. */
  lemma {:induction false} FoldMinIsMinimum(s: seq<Ext>)
    ensures forall i :: 0 <= i < |s| ==> Le(Fold(Min, Inf, s), s[i])
    ensures s != [] ==> Fold(Min, Inf, s) in s
    ensures Fold(Min, Inf, s) == Inf <==> forall i :: 0 <= i < |s| ==> s[i] == Inf
  {
    if s != [] {
      var init := s[..|s| - 1];
      FoldMinIsMinimum(init);
      assert forall i :: 0 <= i < |init| ==> init[i] == s[i];
      if init != [] {
        assert Fold(Min, Inf, init) in s;
      }
    }
  }

  /** MinTree(capacity): every leaf starts at +infinity. */
  method NewMinTree(capacity: int) returns (r: Result<SegmentTree<Ext>, Error>)
    ensures r.Err? <==> capacity < 1
    ensures r.Err? ==> r.error == InvalidArgument(capacity)
    ensures r.Ok? ==> fresh(r.value) && fresh(r.value.tree) && r.value.Valid() && IsMinTree(r.value)
                      && r.value.capacity == capacity && r.value.depth == Levels(capacity)
                      && r.value.Leaves() == seq(capacity, _ => Inf)
  {
    if capacity < 1 {
      return Err(InvalidArgument(capacity));
    }
    MinIsMonoid();
    var tr := new SegmentTree(capacity, Min, Inf);
    r := Ok(tr);
  }

  /** root_value of a min tree is the smallest leaf. */
  lemma RootIsMinimum(tr: SegmentTree<Ext>)
    requires tr.Valid() && IsMinTree(tr)
    ensures tr.tree[1] in tr.Leaves()
    ensures forall i :: 0 <= i < tr.capacity ==> Le(tr.tree[1], tr.Leaves()[i])
  {
    tr.RootIsFold();
    FoldMinIsMinimum(tr.Leaves());
  }

  /** A successful range query of a min tree is the smallest leaf of the range. */
  lemma RangeIsMinimum(leaves: seq<Ext>, start: int, stop: int)
    requires ReduceRange(Min, Inf, leaves, start, Some(stop)).Ok?
    ensures var a, b := Resolve(|leaves|, start), Resolve(|leaves|, stop);
            var m := ReduceRange(Min, Inf, leaves, start, Some(stop)).value;
            0 <= a < b <= |leaves| && m in leaves[a..b] &&
            forall i :: a <= i < b ==> Le(m, leaves[i])
  {
    var a, b := Resolve(|leaves|, start), Resolve(|leaves|, stop);
    FoldMinIsMinimum(leaves[a..b]);
    forall i | a <= i < b ensures leaves[i] == leaves[a..b][i - a] {
    }
  }
}
