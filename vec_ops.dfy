/**
 * The two `Vec` operations the ranking applies in place: `sort`, Rust's
 * stable sort driven by `Ord::cmp`, and `reverse`. `sort` is modelled by an
 * insertion sort that, like Rust's, only ever asks `cmp` about two elements
 * and never moves an element past one it compares `Equal` to.
 */
module VecOps {

  import opened ComparibleTasks

  /** Every score is NaN, or none is: the case in which `cmp` is a total preorder. */
  ghost predicate UniformKind<T>(s: seq<ComparibleTask<T>>) {
    (forall k | 0 <= k < |s| :: s[k].comparitor.NaN?) || (forall k | 0 <= k < |s| :: !s[k].comparitor.NaN?)
  }

  /** Ascending by score; elements of equal score keep their input order (the order of `index`). */
  ghost predicate StablySorted<T>(s: seq<ComparibleTask<T>>) {
    forall i, j | 0 <= i < j < |s| :: Precedes(s[i], s[j])
  }

  /** Highest score first; among equal scores, the later input position first. */
  ghost predicate RankedDescending<T>(s: seq<ComparibleTask<T>>) {
    forall i, j | 0 <= i < j < |s| :: Precedes(s[j], s[i])
  }

  method Swap<T>(a: array<T>, i: int, j: int)
    requires 0 <= i < a.Length && 0 <= j < a.Length
    modifies a
    ensures a[..] == old(a[..])[i := old(a[j])][j := old(a[i])]
    ensures multiset(a[..]) == old(multiset(a[..]))
  {
    a[i], a[j] := a[j], a[i];
  }

  /** Every score is NaN exactly when `nan` holds. */
  ghost predicate AllOfKind<T>(s: seq<ComparibleTask<T>>, nan: bool) {
    forall k | 0 <= k < |s| :: s[k].comparitor.NaN? == nan
  }

  /** The first `n` elements are in stable ascending order. */
  ghost predicate SortedBelow<T>(s: seq<ComparibleTask<T>>, n: int) {
    forall k, m | 0 <= k < m < n && m < |s| :: Precedes(s[k], s[m])
  }

  /** Input positions increase into every element from position `i` on. */
  ghost predicate IndicesRiseFrom<T>(s: seq<ComparibleTask<T>>, i: int) {
    forall k, m | 0 <= k < m < |s| && i <= m :: s[k].index < s[m].index
  }

  /**
   * `Vec::sort`. The input's `index` fields increase along the array (they
   * record input positions), so "equal scores keep their order" is stated
   * through them.
   */
  method StableSort<T>(a: array<ComparibleTask<T>>)
    requires UniformKind(a[..])
    requires forall i, j | 0 <= i < j < a.Length :: a[i].index < a[j].index
    modifies a
    ensures multiset(a[..]) == old(multiset(a[..]))
    ensures StablySorted(a[..])
  {
    ghost var nan := a.Length > 0 && a[0].comparitor.NaN?;
    assert AllOfKind(a[..], nan);
    var i := 0;
    while i < a.Length
      invariant 0 <= i <= a.Length
      invariant multiset(a[..]) == old(multiset(a[..]))
      invariant AllOfKind(a[..], nan)
      invariant SortedBelow(a[..], i)
      invariant IndicesRiseFrom(a[..], i)
    {
      InsertLeft(a, i, nan);
      i := i + 1;
    }
  }

  /**
   * One step of the sort: `a[i]` moves left past every element that
   * compares `Greater` than it, and stops at the first that does not, so it
   * never passes an element of equal score.
   */
  method InsertLeft<T>(a: array<ComparibleTask<T>>, i: int, ghost nan: bool)
    requires 0 <= i < a.Length
    requires AllOfKind(a[..], nan) && SortedBelow(a[..], i) && IndicesRiseFrom(a[..], i)
    modifies a
    ensures multiset(a[..]) == old(multiset(a[..]))
    ensures AllOfKind(a[..], nan) && SortedBelow(a[..], i + 1) && IndicesRiseFrom(a[..], i + 1)
  {
    var j := i;
    InsertingStart(a[..], i, nan);
    while j > 0 && Cmp(a[j - 1], a[j]) == Greater
      invariant 0 <= j <= i
      invariant multiset(a[..]) == old(multiset(a[..]))
      invariant Inserting(a[..], i, j, nan)
    {
      StepLeft(a, i, j, nan);
      j := j - 1;
    }
    InsertingDone(a[..], i, j, nan);
  }

  /** Swaps the travelling element `a[j]` with a left neighbour that compares `Greater`. */
  method StepLeft<T>(a: array<ComparibleTask<T>>, i: int, j: int, ghost nan: bool)
    requires Inserting(a[..], i, j, nan) && 0 < j && Cmp(a[j - 1], a[j]) == Greater
    modifies a
    ensures multiset(a[..]) == old(multiset(a[..]))
    ensures Inserting(a[..], i, j - 1, nan)
  {
    ghost var before := a[..];
    Swap(a, j - 1, j);
    InsertingSwap(before, i, j, nan);
  }

  /**
   * The state of `InsertLeft` while element `j` travels left: the first
   * `i + 1` elements other than `j` are in order, `j` is below everything
   * after it up to `i` and has the largest input position among them, and
   * input positions still increase into the unsorted part.
   */
  ghost predicate Inserting<T>(s: seq<ComparibleTask<T>>, i: int, j: int, nan: bool) {
    && 0 <= j <= i < |s|
    && AllOfKind(s, nan)
    && IndicesRiseFrom(s, i + 1)
    && (forall k, m | 0 <= k < m <= i && k != j && m != j :: Precedes(s[k], s[m]))
    && (forall m | j < m <= i :: Cmp(s[j], s[m]) == Less)
    && (forall k | 0 <= k <= i && k != j :: s[k].index < s[j].index)
  }

  lemma InsertingStart<T>(s: seq<ComparibleTask<T>>, i: int, nan: bool)
    requires 0 <= i < |s| && AllOfKind(s, nan) && SortedBelow(s, i) && IndicesRiseFrom(s, i)
    ensures Inserting(s, i, i, nan)
  {
  }

  /** Swapping the travelling element with a left neighbour that compares `Greater` keeps `Inserting`. */
  lemma InsertingSwap<T>(s: seq<ComparibleTask<T>>, i: int, j: int, nan: bool)
    requires Inserting(s, i, j, nan) && 0 < j && Cmp(s[j - 1], s[j]) == Greater
    ensures Inserting(s[j - 1 := s[j]][j := s[j - 1]], i, j - 1, nan)
  {
    CmpAntisymmetric(s[j - 1], s[j]);
  }

  /** Once the left neighbour is not `Greater`, the first `i + 1` elements are in order. */
  lemma InsertingDone<T>(s: seq<ComparibleTask<T>>, i: int, j: int, nan: bool)
    requires Inserting(s, i, j, nan) && (j == 0 || Cmp(s[j - 1], s[j]) != Greater)
    ensures AllOfKind(s, nan) && SortedBelow(s, i + 1) && IndicesRiseFrom(s, i + 1)
  {
    forall k | 0 <= k < j
      ensures Precedes(s[k], s[j])
    {
      if k < j - 1 {
        CmpTransitive(s[k], s[j - 1], s[j]);
      }
    }
  }

  /** `Vec::reverse`: element `k` becomes element `Length - 1 - k`. */
  method Reverse<T>(a: array<T>)
    modifies a
    ensures forall k | 0 <= k < a.Length :: a[k] == old(a[a.Length - 1 - k])
    ensures multiset(a[..]) == old(multiset(a[..]))
  {
    var lo, hi := 0, a.Length - 1;
    while lo < hi
      invariant 0 <= lo <= hi + 1 <= a.Length && lo + hi == a.Length - 1
      invariant forall k | 0 <= k < lo || hi < k < a.Length :: a[k] == old(a[a.Length - 1 - k])
      invariant forall k | lo <= k <= hi :: a[k] == old(a[k])
      invariant multiset(a[..]) == old(multiset(a[..]))
    {
      Swap(a, lo, hi);
      lo, hi := lo + 1, hi - 1;
    }
  }


  /**
   * `sort()` followed by `reverse()`: a permutation that lists the highest
   * score first and, because the sort is stable, equal scores in decreasing
   * input position.
   */
  method SortThenReverse<T>(a: array<ComparibleTask<T>>)
    requires UniformKind(a[..])
    requires forall i, j | 0 <= i < j < a.Length :: a[i].index < a[j].index
    modifies a
    ensures multiset(a[..]) == old(multiset(a[..]))
    ensures RankedDescending(a[..])
  {
    StableSort(a);
    ghost var sorted := a[..];
    Reverse(a);
    forall i, j | 0 <= i < j < a.Length
      ensures Precedes(a[j], a[i])
    {
      assert a[j] == sorted[a.Length - 1 - j] && a[i] == sorted[a.Length - 1 - i];
    }
  }

}
