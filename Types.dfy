/**
 * The vocabulary shared by every part of the ECS core: entity handles, the
 * capability mask and its single-bit component masks, the two sentinels, and
 * the errors that the source reports by throwing.
 */
module Types {

  /** An entity's identifier; it indexes every per-entity vector. */
  type EntityID = nat

  /** A per-identifier generation counter (32 bits in the source; see README). */
  type EntityGen = nat

  /** The capability mask: one bit per registered component type. */
  type EntityMask = bv64

  /** A position in a component pool's dense vectors. */
  type ComponentIndex = nat

  /** A component type's dense integer identifier. */
  type ComponentTypeID = nat

  /** The number of bits in an EntityMask, hence of distinct component masks. */
  const MASK_WIDTH: nat := 64

  /** The largest value of the source's `std::size_t`. */
  const SIZE_MAX: nat := 0xFFFF_FFFF_FFFF_FFFF

  /** The mask of an entity that carries no component. */
  const NULL_MASK: EntityMask := 0

  /** The sparse-map entry of an identifier that has no dense slot. */
  const NULL_COMPONENT_INDEX: ComponentIndex := SIZE_MAX

  /** A safe handle: an identifier together with the generation it was issued at. */
  datatype Entity = Entity(id: EntityID, gen: EntityGen)

  /** Handle equality: the identifiers and the generations both agree. */
  function SameEntity(a: Entity, b: Entity): (r: bool)
    ensures r <==> a == b
  {
    a.id == b.id && a.gen == b.gen
  }

  /** Everything the core reports to its caller instead of returning normally. */
  datatype Error =
    | InvalidEntity      // the handle fails the id/generation/active check
    | EntityLimit        // no identifier below the registry's maximum is left
    | CreationFailed     // the freshly created handle is not valid
    | UnregisteredType   // the component type was never registered
    | DuplicateType      // the component type is already registered
    | TypeLimit          // no component type identifier below the maximum is left
    | MissingComponent   // the entity has no component in the pool
    | DuplicateSystem    // a system of that type is already in the scene
    | MissingSystem      // no system of that type is in the scene

  /** The result of an operation that returns a value or throws. */
  datatype Result<+T> = Ok(value: T) | Err(error: Error)

  /** The result of an operation that returns nothing or throws. */
  datatype Outcome = Pass | Fail(error: Error)

  /** The mask `1 << k` whose only set bit is bit `k`. */
  function Bit(k: ComponentTypeID): (m: EntityMask)
    requires k < MASK_WIDTH
  {
    Shift(k as bv7)
  }

  function Shift(k: bv7): EntityMask
    requires k < 64
  {
    1 << k
  }

  /** `w` has exactly one bit set. */
  predicate SingleBit(w: EntityMask)
  {
    w != 0 && w & (w - 1) == 0
  }

  /** Every bit set in `required` is set in `m`. */
  predicate Contains(m: EntityMask, required: EntityMask)
  {
    m & required == required
  }

  lemma CastBelowWidth(a: nat)
    requires a < MASK_WIDTH
    ensures a as bv7 < 64
  {
  }

  lemma CastRoundTrip(a: nat)
    requires a < MASK_WIDTH
    ensures (a as bv7) as int == a
  {
  }

  lemma CastInjective(a: nat, b: nat)
    requires a < MASK_WIDTH && b < MASK_WIDTH && a != b
    ensures a as bv7 != b as bv7
  {
    CastRoundTrip(a);
    CastRoundTrip(b);
  }

  lemma ShiftSingle(a: bv7)
    requires a < 64
    ensures SingleBit(Shift(a))
  {
  }

  lemma ShiftDisjoint(a: bv7, b: bv7)
    requires a < 64 && b < 64 && a != b
    ensures Shift(a) & Shift(b) == 0
  {
  }

  /** Every component mask has exactly one bit set. */
  lemma BitIsSingle(k: ComponentTypeID)
    requires k < MASK_WIDTH
    ensures SingleBit(Bit(k))
  {
    CastBelowWidth(k);
    ShiftSingle(k as bv7);
  }

  /** Distinct type identifiers get masks with no bit in common. */
  lemma BitsDisjoint(a: ComponentTypeID, b: ComponentTypeID)
    requires a < MASK_WIDTH && b < MASK_WIDTH && a != b
    ensures Bit(a) & Bit(b) == 0
  {
    CastBelowWidth(a);
    CastBelowWidth(b);
    CastInjective(a, b);
    ShiftDisjoint(a as bv7, b as bv7);
  }

  /** The first two type identifiers get the masks 1 and 2. */
  lemma FirstMasks()
    ensures Bit(0) == 1 && Bit(1) == 2
  {
  }

  /** The mask `m` has a bit in common with the type mask `b`. */
  predicate HasBit(m: EntityMask, b: EntityMask)
  {
    m & b != 0
  }

  /** The masks `a` and `b` have no bit in common. */
  predicate Disjoint(a: EntityMask, b: EntityMask)
  {
    a & b == 0
  }

  // Each bit-vector fact is proved as one equation between masks; the
  // lemmas about HasBit and Contains follow from those equations.

  lemma OrKeeps(m: EntityMask, a: EntityMask)
    ensures (m | a) & a == a
  {
  }

  lemma OrDisjoint(m: EntityMask, a: EntityMask, b: EntityMask)
    requires a & b == 0
    ensures (m | a) & b == m & b
  {
  }

  lemma AndNotClears(m: EntityMask, a: EntityMask)
    ensures (m & !a) & a == 0
  {
  }

  lemma AndNotDisjoint(m: EntityMask, a: EntityMask, b: EntityMask)
    requires a & b == 0
    ensures (m & !a) & b == m & b
  {
  }

  lemma AndNotShrinks(m: EntityMask, a: EntityMask, b: EntityMask)
    ensures (m & !a) & b != 0 ==> m & b != 0
  {
  }

  lemma SingleCovered(m: EntityMask, w: EntityMask)
    requires SingleBit(w)
    ensures m & w != 0 ==> m & w == w
  {
  }

  lemma UnionCoversLeft(m: EntityMask, a: EntityMask, b: EntityMask)
    ensures m & (a | b) == a | b ==> m & a == a
  {
  }

  lemma UnionCoversRight(m: EntityMask, a: EntityMask, b: EntityMask)
    ensures m & (a | b) == a | b ==> m & b == b
  {
  }

  lemma UnionCovered(m: EntityMask, a: EntityMask, b: EntityMask)
    ensures m & a == a && m & b == b ==> m & (a | b) == a | b
  {
  }

  /** OR-ing in a non-empty mask sets one of its bits. */
  lemma OrSame(m: EntityMask, a: EntityMask)
    requires a != 0
    ensures HasBit(m | a, a)
  {
    OrKeeps(m, a);
  }

  /** OR-ing in a mask leaves the bits of a disjoint mask as they were. */
  lemma OrOther(m: EntityMask, a: EntityMask, b: EntityMask)
    requires Disjoint(a, b)
    ensures HasBit(m | a, b) == HasBit(m, b)
  {
    OrDisjoint(m, a, b);
  }

  /** OR-ing in a mask clears no bit. */
  lemma OrMonotone(m: EntityMask, a: EntityMask, b: EntityMask)
    ensures HasBit(m, b) ==> HasBit(m | a, b)
  {
  }

  /** AND-ing out a mask clears all its bits. */
  lemma AndNotSame(m: EntityMask, a: EntityMask)
    ensures !HasBit(m & !a, a)
  {
    AndNotClears(m, a);
  }

  /** AND-ing out a mask leaves the bits of a disjoint mask as they were. */
  lemma AndNotOther(m: EntityMask, a: EntityMask, b: EntityMask)
    requires Disjoint(a, b)
    ensures HasBit(m & !a, b) == HasBit(m, b)
  {
    AndNotDisjoint(m, a, b);
  }

  /** AND-ing out a mask keeps every bit of a disjoint mask. */
  lemma AndNotKeeps(m: EntityMask, a: EntityMask, b: EntityMask)
    requires Disjoint(a, b)
    ensures HasBit(m, b) ==> HasBit(m & !a, b)
  {
    AndNotDisjoint(m, a, b);
  }

  /** AND-ing out a mask sets no bit that was clear. */
  lemma AndNotSubset(m: EntityMask, a: EntityMask, b: EntityMask)
    ensures HasBit(m & !a, b) ==> HasBit(m, b)
  {
    AndNotShrinks(m, a, b);
  }

  /** NULL_MASK has no bit in common with any mask. */
  lemma NullNoBit(b: EntityMask)
    ensures !HasBit(NULL_MASK, b)
  {
  }

  /** A mask contains a single bit exactly when that bit is set. */
  lemma ContainsSingle(m: EntityMask, w: EntityMask)
    requires SingleBit(w)
    ensures Contains(m, w) <==> HasBit(m, w)
  {
    SingleCovered(m, w);
  }

  /** A mask contains a union exactly when it contains both parts. */
  lemma ContainsUnion(m: EntityMask, a: EntityMask, b: EntityMask)
    ensures Contains(m, a | b) <==> Contains(m, a) && Contains(m, b)
  {
    UnionCoversLeft(m, a, b);
    UnionCoversRight(m, a, b);
    UnionCovered(m, a, b);
  }

  /** Every mask contains NULL_MASK. */
  lemma ContainsNull(m: EntityMask)
    ensures Contains(m, NULL_MASK)
  {
  }
}
