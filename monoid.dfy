/**
 * The algebra a reduction tree is built over: an associative operator with a
 * two-sided identity, and the left-to-right reduction ("fold") of a sequence.
 * The naive fold is the reference every tree query is proved against.
 */
module Monoid {

  ghost predicate IsMonoid<T(!new)>(op: (T, T) -> T, e: T) {
    (forall x :: op(x, e) == x && op(e, x) == x) &&
    // associativity is instantiated only through the lemma Assoc below
    (forall x, y, z {:trigger Grouped(op, x, y, z)} :: Grouped(op, x, y, z) == op(x, op(y, z)))
  }

  ghost function Grouped<T>(op: (T, T) -> T, x: T, y: T, z: T): T {
    op(op(x, y), z)
  }

  lemma Assoc<T(!new)>(op: (T, T) -> T, e: T, x: T, y: T, z: T)
    requires IsMonoid(op, e)
    ensures op(op(x, y), z) == op(x, op(y, z))
  {
    assert Grouped(op, x, y, z) == op(op(x, y), z);
  }

  /** op(...op(op(e, s[0]), s[1])..., s[|s|-1]) */
  function Fold<T>(op: (T, T) -> T, e: T, s: seq<T>): T {
    if s == [] then e else op(Fold(op, e, s[..|s| - 1]), s[|s| - 1])
  }

  lemma {:induction false} FoldAppend<T(!new)>(op: (T, T) -> T, e: T, s: seq<T>, t: seq<T>)
    requires IsMonoid(op, e)
    ensures Fold(op, e, s + t) == op(Fold(op, e, s), Fold(op, e, t))
    decreases |t|
  {
    if t == [] {
      assert s + t == s;
    } else {
      var t' := t[..|t| - 1];
      assert (s + t)[..|s + t| - 1] == s + t';
      FoldAppend(op, e, s, t');
      Assoc(op, e, Fold(op, e, s), Fold(op, e, t'), t[|t| - 1]);
    }
  }

  lemma FoldSingleton<T(!new)>(op: (T, T) -> T, e: T, x: T)
    requires IsMonoid(op, e)
    ensures Fold(op, e, [x]) == x
  {
    assert [x][..0] == [];
  }

  /** Splitting off the first element instead of the last. */
  lemma FoldFirst<T(!new)>(op: (T, T) -> T, e: T, s: seq<T>)
    requires IsMonoid(op, e) && s != []
    ensures Fold(op, e, s) == op(s[0], Fold(op, e, s[1..]))
  {
    assert s == [s[0]] + s[1..];
    FoldAppend(op, e, [s[0]], s[1..]);
    FoldSingleton(op, e, s[0]);
  }

  /** A run of identities reduces to the identity: padding never perturbs a reduction. */
  lemma {:induction false} FoldIdentities<T(!new)>(op: (T, T) -> T, e: T, s: seq<T>)
    requires IsMonoid(op, e)
    requires forall i :: 0 <= i < |s| ==> s[i] == e
    ensures Fold(op, e, s) == e
    decreases |s|
  {
    if s != [] {
      FoldIdentities(op, e, s[..|s| - 1]);
    }
  }
}
