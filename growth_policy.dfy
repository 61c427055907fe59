/**
 * The growth policy a heap storage is instantiated with. Its two sizing
 * functions are left uninterpreted; all that the storages rely on is
 * that neither of them under-allocates. Sizes are in elements.
 */
module Growth {
  /** growth_size(current, min_additional) and shrink_size(current, min_required). */
  datatype Policy = Policy(growthSize: (nat, nat) -> nat, shrinkSize: (nat, nat) -> nat)

  /** A policy never returns less than what was asked for. */
  ghost predicate Sound(p: Policy) {
    && (forall cur: nat, add: nat :: p.growthSize(cur, add) >= cur + add)
    && (forall cur: nat, need: nat :: p.shrinkSize(cur, need) >= need)
  }
}
