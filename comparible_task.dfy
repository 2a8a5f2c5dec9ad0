/**
 * `ComparibleTask`: a task tagged with its position in the input and its
 * score ("comparitor"), ordered by the score alone. The tagged task's type
 * is a parameter, so this module does not depend on the task module that
 * builds the tags.
 */
module ComparibleTasks {

  import opened RustTypes
  import opened Scores

  /** `core::cmp::Ordering`. */
  datatype Ordering = Less | Equal | Greater

  datatype ComparibleTask<T> = ComparibleTask(task: T, index: nat, comparitor: Score)

  /** `ComparibleTask::new(task, comparitor, index)`. */
  function New<T>(task: T, comparitor: Score, index: nat): (c: ComparibleTask<T>)
    ensures c.task == task && c.comparitor == comparitor && c.index == index
  {
    ComparibleTask(task, index, comparitor)
  }

  /** `Ord::cmp`: compares the scores with `f64`'s `<` and `>`; everything else is `Equal`. */
  function Cmp<T>(a: ComparibleTask<T>, b: ComparibleTask<T>): (o: Ordering)
    ensures o == Less <==> Below(a.comparitor, b.comparitor)
    ensures o == Greater <==> Below(b.comparitor, a.comparitor)
    ensures o == Equal <==> !Below(a.comparitor, b.comparitor) && !Below(b.comparitor, a.comparitor)
  {
    BelowIsStrictOrder(a.comparitor, b.comparitor, a.comparitor);
    if Below(a.comparitor, b.comparitor) then Less
    else if Below(b.comparitor, a.comparitor) then Greater
    else Equal
  }

  /** `PartialOrd::partial_cmp`: always defined, and always `cmp`'s answer. */
  function PartialCmp<T>(a: ComparibleTask<T>, b: ComparibleTask<T>): (o: Option<Ordering>)
    ensures o.Some? && o.value == Cmp(a, b)
  {
    Some(Cmp(a, b))
  }

  /** Two tags whose scores are both NaN or both not NaN. */
  predicate SameKind<T>(a: ComparibleTask<T>, b: ComparibleTask<T>) {
    a.comparitor.NaN? == b.comparitor.NaN?
  }

  /**
   * Where a stable ascending sort places `x` before `y`: a lower score, or an
   * equal score and an earlier input position.
   */
  predicate Precedes<T>(x: ComparibleTask<T>, y: ComparibleTask<T>) {
    Cmp(x, y) == Less || (Cmp(x, y) == Equal && x.index < y.index)
  }

  lemma CmpReflexive<T>(a: ComparibleTask<T>)
    ensures Cmp(a, a) == Equal
  {
    BelowIsStrictOrder(a.comparitor, a.comparitor, a.comparitor);
  }

  lemma CmpAntisymmetric<T>(a: ComparibleTask<T>, b: ComparibleTask<T>)
    ensures Cmp(a, b) == Less <==> Cmp(b, a) == Greater
    ensures Cmp(a, b) == Equal <==> Cmp(b, a) == Equal
  {
  }

  /** `cmp` looks at the scores only: neither the task nor the index matters. */
  lemma CmpOnlyReadsComparitor<T>(a: ComparibleTask<T>, b: ComparibleTask<T>, a': ComparibleTask<T>, b': ComparibleTask<T>)
    requires a.comparitor == a'.comparitor && b.comparitor == b'.comparitor
    ensures Cmp(a, b) == Cmp(a', b')
  {
  }

  /** Without NaN, `cmp` says `Equal` exactly when the scores are equal. */
  lemma CmpEqualIffSameScore<T>(a: ComparibleTask<T>, b: ComparibleTask<T>)
    requires !a.comparitor.NaN? && !b.comparitor.NaN?
    ensures Cmp(a, b) == Equal <==> a.comparitor == b.comparitor
  {
    BelowIsTotalWithoutNaN(a.comparitor, b.comparitor);
    BelowIsStrictOrder(a.comparitor, b.comparitor, a.comparitor);
  }

  /** A NaN score is `Equal` to every score, in both directions. */
  lemma CmpNaNIsEqualToAll<T>(a: ComparibleTask<T>, b: ComparibleTask<T>)
    requires a.comparitor.NaN?
    ensures Cmp(a, b) == Equal && Cmp(b, a) == Equal
  {
    BelowIsStrictOrder(a.comparitor, b.comparitor, a.comparitor);
  }

  /**
   * Among tags of the same kind (all NaN, or none NaN) `cmp` is a total
   * preorder: "not Greater" and "Less" are transitive.
   */
  lemma CmpTransitive<T>(a: ComparibleTask<T>, b: ComparibleTask<T>, c: ComparibleTask<T>)
    requires SameKind(a, b) && SameKind(b, c)
    ensures Cmp(a, b) != Greater && Cmp(b, c) != Greater ==> Cmp(a, c) != Greater
    ensures Cmp(a, b) == Less && Cmp(b, c) == Less ==> Cmp(a, c) == Less
  {
    if a.comparitor.NaN? {
      CmpNaNIsEqualToAll(a, c);
    } else {
      BelowIsTotalWithoutNaN(a.comparitor, b.comparitor);
      BelowIsTotalWithoutNaN(b.comparitor, c.comparitor);
      BelowIsStrictOrder(a.comparitor, b.comparitor, c.comparitor);
    }
  }

}
