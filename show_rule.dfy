/** `ShowRule`: the detail level at which tasks are listed, chosen from two command-line flags. */
module ShowRules {

  /** Declared in this order; the derived `PartialOrd` orders the variants the same way. */
  datatype ShowRule = Verbose | Complete | Required

  /** The variant's position in the declaration, which the derived ordering compares. */
  function Rank(r: ShowRule): nat {
    match r
    case Verbose => 0
    case Complete => 1
    case Required => 2
  }

  /** The derived `<` on `ShowRule`. */
  predicate Lt(a: ShowRule, b: ShowRule) {
    Rank(a) < Rank(b)
  }

  /** `ShowRule::from(verbose, complete)`: the verbose flag wins over the complete flag. */
  function From(verbose: bool, complete: bool): (r: ShowRule)
    ensures r == Verbose <==> verbose
    ensures r == Complete <==> !verbose && complete
    ensures r == Required <==> !verbose && !complete
  {
    if verbose then Verbose
    else if complete then Complete
    else Required
  }

  /** The derived ordering: `Verbose < Complete < Required`, a strict total order. */
  lemma DeclarationOrder(a: ShowRule, b: ShowRule)
    ensures Lt(Verbose, Complete) && Lt(Complete, Required)
    ensures !Lt(a, a)
    ensures a != b ==> Lt(a, b) || Lt(b, a)
    ensures Lt(a, b) ==> !Lt(b, a)
  {
  }

  /** Asking for more detail never yields a later rule: `from` is antitone in each flag. */
  lemma FromIsAntitone(verbose: bool, complete: bool)
    ensures !Lt(From(false, complete), From(true, complete))
    ensures !Lt(From(verbose, false), From(verbose, true))
  {
  }

}
