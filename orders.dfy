/** Properties of the caller-supplied binary callables: the less-than of Sort, Max and Min,
    and the equivalence of Distinct. Callables are pure, total Dafny functions. */
module Orders {

  ghost predicate Reflexive<T(!new)>(r: (T, T) -> bool) {
    forall x :: r(x, x)
  }

  ghost predicate Irreflexive<T(!new)>(r: (T, T) -> bool) {
    forall x :: !r(x, x)
  }

  ghost predicate Symmetric<T(!new)>(r: (T, T) -> bool) {
    forall x, y :: r(x, y) ==> r(y, x)
  }

  ghost predicate Asymmetric<T(!new)>(r: (T, T) -> bool) {
    forall x, y :: r(x, y) ==> !r(y, x)
  }

  ghost predicate Transitive<T(!new)>(r: (T, T) -> bool) {
    forall x, y, z :: r(x, y) && r(y, z) ==> r(x, z)
  }

  /** "Not less" is transitive: together with irreflexivity and transitivity this makes
      incomparability an equivalence, i.e. a strict weak order. */
  ghost predicate NegativelyTransitive<T(!new)>(r: (T, T) -> bool) {
    forall x, y, z :: !r(x, y) && !r(y, z) ==> !r(x, z)
  }

  ghost predicate StrictWeakOrder<T(!new)>(r: (T, T) -> bool) {
    Irreflexive(r) && Transitive(r) && NegativelyTransitive(r)
  }

  ghost predicate Equivalence<T(!new)>(r: (T, T) -> bool) {
    Reflexive(r) && Symmetric(r) && Transitive(r)
  }

  /** The relation with its arguments swapped: Min replaces its candidate when
      less(x, current), i.e. when Flip(less)(current, x). */
  function Flip<T>(r: (T, T) -> bool): (T, T) -> bool {
    (x, y) => r(y, x)
  }

  lemma FlipStrictWeakOrder<T(!new)>(r: (T, T) -> bool)
    requires StrictWeakOrder(r)
    ensures StrictWeakOrder(Flip(r))
    ensures forall x, y :: Flip(r)(x, y) == r(y, x)
  {
  }
}
