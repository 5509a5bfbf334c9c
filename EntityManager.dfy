/**
 * The entity registry: it hands out `(id, gen)` handles, from a LIFO stack
 * of recycled identifiers or from a fresh counter bounded by `maxID`, keeps a
 * generation counter and a capability mask per identifier, and guards every
 * mask operation with a validity check.
 *
 * The class EntityManager is the registry the rest of the model uses. Its
 * validity rule is "the generation matches and the slot is active", with a
 * dedicated per-slot active flag. The code as written instead treats a slot
 * as active when its mask is not NULL_MASK; that rule, and the two ways in
 * which it makes creation fail, are modelled by the `...AsWritten` members.
 */
module EntityManager {
  import opened Types

  /** Every generation counter of `before` is still there in `after`, and none went down. */
  ghost predicate GensGrew(before: seq<EntityGen>, after: seq<EntityGen>)
  {
    |before| <= |after| && forall i :: 0 <= i < |before| ==> before[i] <= after[i]
  }

  /** A handle whose generation is behind its identifier's counter: it was destroyed. */
  ghost predicate RetiredIn(gens: seq<EntityGen>, e: Entity)
  {
    e.id < |gens| && e.gen < gens[e.id]
  }

  /** A retired handle stays retired however the counters grow. */
  lemma RetiredStaysRetired(before: seq<EntityGen>, after: seq<EntityGen>, e: Entity)
    requires GensGrew(before, after) && RetiredIn(before, e)
    ensures RetiredIn(after, e) && e.gen != after[e.id]
  {
  }

  // ---------------------------------------------------------------------
  // The code as written: validity means a matching generation and a mask
  // that is not NULL_MASK.
  // ---------------------------------------------------------------------

  /** The fields of the source's registry, without an active flag. */
  datatype Slots = Slots(maxID: nat, newID: EntityID, recycledIDs: seq<EntityID>,
                         entityGens: seq<EntityGen>, entityMasks: seq<EntityMask>)

  /**
   * The vectors have one length, no longer than the fresh counter, and every
   * recycled identifier indexes them.
   */
  ghost predicate WellFormed(s: Slots)
  {
    && |s.entityGens| == |s.entityMasks| <= s.newID
    && forall i :: 0 <= i < |s.recycledIDs| ==> s.recycledIDs[i] < |s.entityGens|
  }

  /** A registry as the constructor leaves it. */
  function NewSlots(maxid: nat, newid: EntityID): (s: Slots)
    ensures WellFormed(s)
    ensures s.recycledIDs == [] && s.entityGens == [] && s.newID == newid
  {
    Slots(maxid, newid, [], [], [])
  }

  /** `isActive` as written: in range, generation matches, mask not NULL_MASK. */
  function IsActiveAsWritten(s: Slots, e: Entity): (r: bool)
    requires WellFormed(s)
  {
    if e.id < |s.entityGens| then
      s.entityGens[e.id] == e.gen && s.entityMasks[e.id] != NULL_MASK
    else
      false
  }

  /**
   * `addEntity` as written, returning the handle or the error together with
   * the state left behind (a throw after the identifier was taken keeps the
   * changes made before it).
   */
  function AddEntityAsWritten(s: Slots, mask: EntityMask): (r: (Result<Entity>, Slots))
    requires WellFormed(s)
    ensures WellFormed(r.1)
  {
    if s.newID < s.maxID then
      var (e, s') :=
        if s.recycledIDs != [] then
          var id := s.recycledIDs[|s.recycledIDs| - 1];
          (Entity(id, s.entityGens[id]),
           s.(recycledIDs := s.recycledIDs[..|s.recycledIDs| - 1],
              entityMasks := s.entityMasks[id := mask]))
        else
          (Entity(s.newID, 0),
           s.(newID := s.newID + 1,
              entityGens := s.entityGens + [0],
              entityMasks := s.entityMasks + [mask]));
      if IsActiveAsWritten(s', e) then (Ok(e), s') else (Err(CreationFailed), s')
    else
      (Err(EntityLimit), s)
  }

  /**
   * As written, creating an entity with NULL_MASK (which is what the scene's
   * createEntity does) always throws, and the identifier it took is lost:
   * it is neither on the recycled stack nor below a valid handle.
   */
  lemma NullMaskCreationFailsAsWritten(s: Slots)
    requires WellFormed(s) && s.newID < s.maxID
    ensures AddEntityAsWritten(s, NULL_MASK).0 == Err(CreationFailed)
    ensures var s' := AddEntityAsWritten(s, NULL_MASK).1;
            if s.recycledIDs != [] then |s'.recycledIDs| == |s.recycledIDs| - 1
            else s'.newID == s.newID + 1 && |s'.entityGens| == |s.entityGens| + 1
  {
    if s.recycledIDs != [] {
      var id := s.recycledIDs[|s.recycledIDs| - 1];
      var s' := s.(recycledIDs := s.recycledIDs[..|s.recycledIDs| - 1],
                   entityMasks := s.entityMasks[id := NULL_MASK]);
      assert !IsActiveAsWritten(s', Entity(id, s.entityGens[id]));
    } else {
      var s' := s.(newID := s.newID + 1, entityGens := s.entityGens + [0],
                   entityMasks := s.entityMasks + [NULL_MASK]);
      assert !IsActiveAsWritten(s', Entity(s.newID, 0)) by {
        if s.newID < |s'.entityGens| {
          assert s'.entityMasks[s.newID] == NULL_MASK;
        }
      }
    }
  }

  /**
   * As written, creation with a non-NULL mask from the recycled stack
   * succeeds and reissues the top identifier at its current generation.
   */
  lemma PopAsWritten(s: Slots, mask: EntityMask)
    requires WellFormed(s) && s.newID < s.maxID && s.recycledIDs != [] && mask != NULL_MASK
    ensures var id := s.recycledIDs[|s.recycledIDs| - 1];
            AddEntityAsWritten(s, mask).0 == Ok(Entity(id, s.entityGens[id]))
  {
  }

  /**
   * As written, creation with a non-NULL mask from the fresh counter succeeds
   * when the counter equals the number of slots (a zero starting identifier).
   */
  lemma MintAsWritten(s: Slots, mask: EntityMask)
    requires WellFormed(s) && s.newID < s.maxID && s.recycledIDs == [] && mask != NULL_MASK
    requires s.newID == |s.entityGens|
    ensures AddEntityAsWritten(s, mask).0 == Ok(Entity(s.newID, 0))
  {
  }

  /**
   * As written, a registry constructed with a non-zero starting identifier
   * can never create an entity: the fresh identifier is `newID` but its slot
   * is pushed at index 0, so the post-check finds it out of range.
   */
  lemma OffsetStartFailsAsWritten(maxid: nat, newid: EntityID, mask: EntityMask)
    requires 0 < newid < maxid
    ensures AddEntityAsWritten(NewSlots(maxid, newid), mask).0 == Err(CreationFailed)
  {
  }

  // ---------------------------------------------------------------------
  // The registry the model uses: the invariant and its preservation.
  // ---------------------------------------------------------------------

  /**
   * The registry invariant: one slot per minted identifier, recycled
   * identifiers are distinct inactive slots, and an inactive slot carries
   * no component.
   */
  ghost predicate Registry(newID: EntityID, recycled: seq<EntityID>, gens: seq<EntityGen>,
                           masks: seq<EntityMask>, active: seq<bool>)
  {
    && |gens| == |masks| == |active| <= newID
    && (forall i :: 0 <= i < |recycled| ==> recycled[i] < |active| && !active[recycled[i]])
    && (forall i, j :: 0 <= i < j < |recycled| ==> recycled[i] != recycled[j])
    && (forall id :: 0 <= id < |active| && !active[id] ==> masks[id] == NULL_MASK)
  }

  /** `e` names the live generation of an active slot. */
  ghost predicate LiveIn(gens: seq<EntityGen>, active: seq<bool>, e: Entity)
  {
    e.id < |gens| && e.id < |active| && gens[e.id] == e.gen && active[e.id]
  }

  /** `s` padded with `fill` up to index `at`, where `last` is placed. */
  function Extend<T>(s: seq<T>, at: nat, fill: T, last: T): (r: seq<T>)
    requires |s| <= at
    ensures |r| == at + 1 && r[..|s|] == s && r[at] == last
    ensures forall j :: |s| <= j < at ==> r[j] == fill
  {
    s + seq(at - |s|, _ => fill) + [last]
  }

  /** `masks` with the bits of `b` OR-ed into the mask at `id`. */
  function Raise(masks: seq<EntityMask>, id: EntityID, b: EntityMask): (r: seq<EntityMask>)
    requires id < |masks|
    ensures |r| == |masks|
  {
    masks[id := masks[id] | b]
  }

  /** `masks` with the bits of `b` cleared from the mask at `id`. */
  function Lower(masks: seq<EntityMask>, id: EntityID, b: EntityMask): (r: seq<EntityMask>)
    requires id < |masks|
    ensures |r| == |masks|
  {
    masks[id := masks[id] & !b]
  }

  /** Changing the mask of an active slot keeps the invariant. */
  lemma MaskKeeps(newID: EntityID, recycled: seq<EntityID>, gens: seq<EntityGen>,
                  masks: seq<EntityMask>, active: seq<bool>, id: EntityID, m: EntityMask)
    requires Registry(newID, recycled, gens, masks, active) && id < |active| && active[id]
    ensures Registry(newID, recycled, gens, masks[id := m], active)
  {
  }

  /** Reactivating the most recently recycled identifier keeps the invariant. */
  lemma PopKeeps(newID: EntityID, recycled: seq<EntityID>, gens: seq<EntityGen>,
                 masks: seq<EntityMask>, active: seq<bool>, m: EntityMask)
    requires Registry(newID, recycled, gens, masks, active) && recycled != []
    ensures var id := recycled[|recycled| - 1];
            && id < |active| && !active[id]
            && Registry(newID, recycled[..|recycled| - 1], gens, masks[id := m], active[id := true])
            && !LiveIn(gens, active, Entity(id, gens[id]))
            && LiveIn(gens, active[id := true], Entity(id, gens[id]))
            && forall e :: LiveIn(gens, active, e) ==> LiveIn(gens, active[id := true], e)
  {
    var id := recycled[|recycled| - 1];
    var r' := recycled[..|recycled| - 1];
    forall i | 0 <= i < |r'|
      ensures r'[i] < |active| && !active[id := true][r'[i]]
    {
      assert r'[i] == recycled[i] != id;
    }
  }

  /** Minting `newID`, with NULL slots padding the gap below it, keeps the invariant. */
  lemma MintKeeps(newID: EntityID, gens: seq<EntityGen>, masks: seq<EntityMask>,
                  active: seq<bool>, m: EntityMask)
    requires Registry(newID, [], gens, masks, active)
    ensures var gens', active' := Extend(gens, newID, 0, 0), Extend(active, newID, false, true);
            && Registry(newID + 1, [], gens', Extend(masks, newID, NULL_MASK, m), active')
            && !LiveIn(gens, active, Entity(newID, 0))
            && LiveIn(gens', active', Entity(newID, 0))
            && GensGrew(gens, gens')
            && forall e :: LiveIn(gens, active, e) ==> LiveIn(gens', active', e)
  {
    var masks' := Extend(masks, newID, NULL_MASK, m);
    var active' := Extend(active, newID, false, true);
    var gens' := Extend(gens, newID, 0, 0);
    forall e | LiveIn(gens, active, e)
      ensures LiveIn(gens', active', e)
    {
      assert gens'[e.id] == gens'[..|gens|][e.id] && active'[e.id] == active'[..|active|][e.id];
    }
    forall i | 0 <= i < |gens|
      ensures gens[i] <= gens'[i]
    {
      assert gens'[i] == gens'[..|gens|][i];
    }
    forall id | 0 <= id < |active'| && !active'[id]
      ensures masks'[id] == NULL_MASK
    {
      if id < |active| {
        assert active'[id] == active'[..|active|][id] && masks'[id] == masks'[..|masks|][id];
      }
    }
  }

  /** Deactivating an active slot and recycling its identifier keeps the invariant. */
  lemma RetireKeeps(newID: EntityID, recycled: seq<EntityID>, gens: seq<EntityGen>,
                    masks: seq<EntityMask>, active: seq<bool>, id: EntityID)
    requires Registry(newID, recycled, gens, masks, active) && id < |active| && active[id]
    ensures Registry(newID, recycled + [id], gens[id := gens[id] + 1], masks[id := NULL_MASK],
                     active[id := false])
  {
  }

  // ---------------------------------------------------------------------
  // The registry the model uses: validity means a matching generation and
  // an active slot; a slot's mask may be NULL_MASK while it is active.
  // ---------------------------------------------------------------------

  class EntityManager {
    const maxID: nat
    var newID: EntityID
    var recycledIDs: seq<EntityID>
    var entityGens: seq<EntityGen>
    var entityMasks: seq<EntityMask>
    var entityActive: seq<bool>

    /** The registry invariant holds of the fields. */
    ghost predicate Valid()
      reads this
    {
      Registry(newID, recycledIDs, entityGens, entityMasks, entityActive)
    }

    /** The identifier `id` belongs to a live entity. */
    ghost predicate Active(id: EntityID)
      reads this
    {
      id < |entityActive| && entityActive[id]
    }

    /** The handle `e` was destroyed: its generation is behind the counter. */
    ghost predicate Retired(e: Entity)
      reads this
    {
      RetiredIn(entityGens, e)
    }

    /** The fields as the code as written sees them. */
    ghost function Snapshot(): (s: Slots)
      reads this
      requires Valid()
      ensures WellFormed(s)
    {
      Slots(maxID, newID, recycledIDs, entityGens, entityMasks)
    }

    constructor (maxid: nat, newid: EntityID)
      ensures Valid()
      ensures maxID == maxid && newID == newid
      ensures recycledIDs == [] && entityGens == [] && entityMasks == [] && entityActive == []
    {
      maxID, newID := maxid, newid;
      recycledIDs, entityGens, entityMasks, entityActive := [], [], [], [];
    }

    /** The number of identifier slots; every valid handle's identifier is below it. */
    function Size(): (n: nat)
      reads this
      requires Valid()
      ensures n <= newID
      ensures forall e :: IsValid(e) ==> e.id < n
    {
      |entityGens|
    }

    /** No identifier was ever minted, so no handle is valid. */
    function Empty(): (r: bool)
      reads this
      requires Valid()
      ensures r <==> Size() == 0
      ensures r ==> forall e :: !IsValid(e)
    {
      |entityGens| == 0
    }

    /**
     * `e` is valid: its identifier is in range, its generation is current
     * and its slot is active. Out-of-range identifiers are invalid, not an
     * error. At most one generation of an identifier is valid at a time.
     */
    function IsValid(e: Entity): (r: bool)
      reads this
      requires Valid()
      ensures r <==> LiveIn(entityGens, entityActive, e)
      ensures r ==> Active(e.id) && !Retired(e)
    {
      e.id < |entityGens| && entityGens[e.id] == e.gen && entityActive[e.id]
    }

    /** The mask of a valid handle; InvalidEntity otherwise. */
    function GetMask(e: Entity): (r: Result<EntityMask>)
      reads this
      requires Valid()
      ensures r.Ok? <==> IsValid(e)
      ensures r.Ok? ==> r.value == entityMasks[e.id]
      ensures r.Err? ==> r.error == InvalidEntity
    {
      if IsValid(e) then Ok(entityMasks[e.id]) else Err(InvalidEntity)
    }

    /** Replace the mask of a valid handle; only slot `e.id` changes. */
    method SetMask(e: Entity, mask: EntityMask) returns (o: Outcome)
      requires Valid()
      modifies this
      ensures Valid()
      ensures o == if old(IsValid(e)) then Pass else Fail(InvalidEntity)
      ensures o.Fail? ==> unchanged(this)
      ensures o.Pass? ==> entityMasks == old(entityMasks)[e.id := mask]
      ensures newID == old(newID) && recycledIDs == old(recycledIDs)
      ensures entityGens == old(entityGens) && entityActive == old(entityActive)
    {
      if !IsValid(e) {
        return Fail(InvalidEntity);
      }
      MaskKeeps(newID, recycledIDs, entityGens, entityMasks, entityActive, e.id, mask);
      entityMasks := entityMasks[e.id := mask];
      o := Pass;
    }

    /** OR bits into the mask of a valid handle; only slot `e.id` changes. */
    method AddMask(e: Entity, mask: EntityMask) returns (o: Outcome)
      requires Valid()
      modifies this
      ensures Valid()
      ensures o == if old(IsValid(e)) then Pass else Fail(InvalidEntity)
      ensures o.Fail? ==> unchanged(this)
      ensures o.Pass? ==> entityMasks == Raise(old(entityMasks), e.id, mask)
      ensures newID == old(newID) && recycledIDs == old(recycledIDs)
      ensures entityGens == old(entityGens) && entityActive == old(entityActive)
    {
      if !IsValid(e) {
        return Fail(InvalidEntity);
      }
      var currentMask := entityMasks[e.id];
      MaskKeeps(newID, recycledIDs, entityGens, entityMasks, entityActive, e.id, currentMask | mask);
      entityMasks := entityMasks[e.id := currentMask | mask];
      o := Pass;
    }

    /** AND the complement of `mask` into the mask of a valid handle; only slot `e.id` changes. */
    method RemoveMask(e: Entity, mask: EntityMask) returns (o: Outcome)
      requires Valid()
      modifies this
      ensures Valid()
      ensures o == if old(IsValid(e)) then Pass else Fail(InvalidEntity)
      ensures o.Fail? ==> unchanged(this)
      ensures o.Pass? ==> entityMasks == Lower(old(entityMasks), e.id, mask)
      ensures newID == old(newID) && recycledIDs == old(recycledIDs)
      ensures entityGens == old(entityGens) && entityActive == old(entityActive)
    {
      if !IsValid(e) {
        return Fail(InvalidEntity);
      }
      var currentMask := entityMasks[e.id];
      MaskKeeps(newID, recycledIDs, entityGens, entityMasks, entityActive, e.id, currentMask & !mask);
      entityMasks := entityMasks[e.id := currentMask & !mask];
      o := Pass;
    }

    /**
     * Create an entity with mask `mask`: pop the most recently recycled
     * identifier and reuse its current generation, or else mint `newID` with
     * generation 0. Fails with EntityLimit, changing nothing, once `newID`
     * has reached `maxID`, even when recycled identifiers are available.
     */
    method CreateEntity(mask: EntityMask) returns (r: Result<Entity>)
      requires Valid()
      modifies this
      ensures Valid()
      ensures GensGrew(old(entityGens), entityGens)
      ensures old(newID) >= maxID ==> r == Err(EntityLimit) && unchanged(this)
      ensures old(newID) < maxID ==>
                && r.Ok?
                && IsValid(r.value) && entityMasks[r.value.id] == mask
                && !LiveIn(old(entityGens), old(entityActive), r.value)
                && (forall e :: LiveIn(old(entityGens), old(entityActive), e) ==> IsValid(e))
      ensures old(newID) < maxID && old(recycledIDs) != [] ==>
                var id := old(recycledIDs)[|old(recycledIDs)| - 1];
                && r == Ok(Entity(id, old(entityGens)[id]))
                && newID == old(newID)
                && recycledIDs == old(recycledIDs)[..|old(recycledIDs)| - 1]
                && entityGens == old(entityGens)
                && entityMasks == old(entityMasks)[id := mask]
                && entityActive == old(entityActive)[id := true]
      ensures old(newID) < maxID && old(recycledIDs) == [] ==>
                && r == Ok(Entity(old(newID), 0))
                && newID == old(newID) + 1
                && recycledIDs == []
                && entityGens == Extend(old(entityGens), old(newID), 0, 0)
                && entityMasks == Extend(old(entityMasks), old(newID), NULL_MASK, mask)
                && entityActive == Extend(old(entityActive), old(newID), false, true)
      ensures mask != NULL_MASK && old(newID) == old(|entityGens|) ==>
                r == AddEntityAsWritten(old(Snapshot()), mask).0
    {
      if newID >= maxID {
        return Err(EntityLimit);
      }
      var e: Entity;
      if recycledIDs != [] {
        var id := recycledIDs[|recycledIDs| - 1];
        PopKeeps(newID, recycledIDs, entityGens, entityMasks, entityActive, mask);
        if mask != NULL_MASK {
          PopAsWritten(Snapshot(), mask);
        }
        recycledIDs := recycledIDs[..|recycledIDs| - 1];
        e := Entity(id, entityGens[id]);
        entityMasks := entityMasks[id := mask];
        entityActive := entityActive[id := true];
      } else {
        e := Entity(newID, 0);
        MintKeeps(newID, entityGens, entityMasks, entityActive, mask);
        if mask != NULL_MASK && newID == |entityGens| {
          MintAsWritten(Snapshot(), mask);
        }
        entityGens := Extend(entityGens, newID, 0, e.gen);
        entityMasks := Extend(entityMasks, newID, NULL_MASK, mask);
        entityActive := Extend(entityActive, newID, false, true);
        newID := newID + 1;
      }
      assert IsValid(e);
      r := Ok(e);
    }

    /**
     * Destroy a valid handle: bump its identifier's generation, clear the
     * mask, deactivate the slot and push the identifier on the recycled
     * stack. The handle, and every copy of it, is retired for good.
     */
    method DestroyEntity(e: Entity) returns (o: Outcome)
      requires Valid()
      modifies this
      ensures Valid()
      ensures GensGrew(old(entityGens), entityGens)
      ensures o == if old(IsValid(e)) then Pass else Fail(InvalidEntity)
      ensures o.Fail? ==> unchanged(this)
      ensures o.Pass? ==>
                && Retired(e) && !IsValid(e)
                && newID == old(newID)
                && recycledIDs == old(recycledIDs) + [e.id]
                && entityGens == old(entityGens)[e.id := old(entityGens)[e.id] + 1]
                && entityMasks == old(entityMasks)[e.id := NULL_MASK]
                && entityActive == old(entityActive)[e.id := false]
    {
      if !IsValid(e) {
        return Fail(InvalidEntity);
      }
      RetireKeeps(newID, recycledIDs, entityGens, entityMasks, entityActive, e.id);
      entityGens := entityGens[e.id := entityGens[e.id] + 1];
      entityMasks := entityMasks[e.id := NULL_MASK];
      entityActive := entityActive[e.id := false];
      recycledIDs := recycledIDs + [e.id];
      o := Pass;
    }
  }
}
